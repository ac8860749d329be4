/** The three registries kept with the optimistic protocol: principals, EKS Pod Identity
    associations (internal/agent/store.go) and access entries (internal/agent/accessentry.go).

    Values are stored as JSON; the encoding is lossless, so a registry is a map to values here.
 */
module Registries {
  import opened OptimisticStore
  import opened Wrappers

  // ---------------------------------------------------------------- principals

  datatype Principal = Principal(accessKeyID: string, arn: string, name: string)

  type Principals = map<string, Principal>

  datatype PrincipalOp = PutPrincipal(principal: Principal) | DeletePrincipal(name: string)

  /** Put drops other keys of the same name, then stores the principal. */
  function PutEdit(data: Principals, p: Principal): Principals {
    (map k | k in data && (k == p.accessKeyID || data[k].name != p.name) :: data[k])[p.accessKeyID := p]
  }

  predicate HasName(data: Principals, name: string) {
    exists k | k in data :: data[k].name == name
  }

  function Without(data: Principals, name: string): Principals {
    map k | k in data && data[k].name != name :: data[k]
  }

  function PrincipalEdit(op: PrincipalOp, data: Principals): Edit<Principals> {
    match op
    case PutPrincipal(p) => Write(PutEdit(data, p))
    case DeletePrincipal(name) => if HasName(data, name) then Write(Without(data, name)) else Missing
  }

  const PRINCIPALS: Registry<PrincipalOp, Principals> :=
    Registry(map[], (op: PrincipalOp) => op.PutPrincipal?, (op: PrincipalOp, data: Principals) => PrincipalEdit(op, data))

  /** Each principal sits under its own access key ID and no two share a name. */
  ghost predicate UniqueNames(data: Principals) {
    && (forall k | k in data :: data[k].accessKeyID == k)
    && (forall k, l | k in data && l in data && data[k].name == data[l].name :: k == l)
  }

  lemma PrincipalsSensible()
    ensures Sensible(PRINCIPALS)
  {
  }

  lemma EditKeepsNames(op: PrincipalOp, data: Principals)
    requires UniqueNames(data)
    ensures PrincipalEdit(op, data).Write? ==> UniqueNames(PrincipalEdit(op, data).data)
  {
  }

  lemma {:induction false} ReplayKeepsNames(log: seq<Entry<PrincipalOp>>)
    ensures UniqueNames(Replay(PRINCIPALS, map[], log))
  {
    if log != [] {
      ReplayKeepsNames(log[..|log| - 1]);
      EditKeepsNames(log[|log| - 1].op, Replay(PRINCIPALS, map[], log[..|log| - 1]));
    }
  }

  /** Name uniqueness: starting from an absent or empty Secret, in every interleaving, each stored
      entry's key is its AccessKeyID and a name has at most one entry, so whatever entry a search by
      name finds first is the only one.
   */
  lemma NamesStayUnique(states: seq<State<PrincipalOp, Principals>>, steps: seq<Step<PrincipalOp>>)
    requires IsRun(PRINCIPALS, map[], states, steps)
    ensures UniqueNames(Contents(PRINCIPALS, states[|steps|].stored))
  {
    PrincipalsSensible();
    RunKeeps(PRINCIPALS, map[], states, steps);
    ReplayKeepsNames(states[|steps|].log);
  }

  /** After a Put the name resolves to the new access key ID alone; other names are as before. */
  lemma PutResolves(data: Principals, p: Principal, name: string, k: string)
    requires UniqueNames(data)
    ensures k in PutEdit(data, p) && PutEdit(data, p)[k].name == name <==>
              if name == p.name then k == p.accessKeyID
              else k != p.accessKeyID && k in data && data[k].name == name
  {
  }

  /** Put stores the principal under its access key ID, in the place of whatever was there or had its name,
      and keeps every other principal.
   */
  lemma PutExact(data: Principals, p: Principal, k: string, q: Principal)
    ensures
      var edited := PrincipalEdit(PutPrincipal(p), data);
      && edited.Write?
      && (k in edited.data && edited.data[k] == q <==>
            if k == p.accessKeyID then q == p else k in data && data[k] == q && q.name != p.name)
  {
  }

  /** Delete takes the principals of the name, misses when there is none, and keeps every other principal. */
  lemma DeleteExact(data: Principals, name: string, k: string, q: Principal)
    ensures
      var edited := PrincipalEdit(DeletePrincipal(name), data);
      && (edited == Missing <==> forall l | l in data :: data[l].name != name)
      && (edited.Write? ==> (k in edited.data && edited.data[k] == q <==> k in data && data[k] == q && q.name != name))
  {
  }

  /** The operation ends the principal's time in the store. */
  predicate Displaces(op: PrincipalOp, p: Principal) {
    match op
    case PutPrincipal(q) => q.accessKeyID == p.accessKeyID || q.name == p.name
    case DeletePrincipal(name) => name == p.name
  }

  /** Entry i puts the principal, and no later entry that succeeded displaces it. */
  ghost predicate LastPut(log: seq<Entry<PrincipalOp>>, i: int, p: Principal) {
    && 0 <= i < |log| && log[i].result == Ok && log[i].op == PutPrincipal(p)
    && forall j | i < j < |log| && log[j].result == Ok :: !Displaces(log[j].op, p)
  }

  lemma LastPutGrows(log: seq<Entry<PrincipalOp>>, p: Principal)
    requires log != []
    ensures
      var front, last := log[..|log| - 1], log[|log| - 1];
      (exists i :: LastPut(log, i, p)) <==>
        || (last.result == Ok && last.op == PutPrincipal(p))
        || (!(last.result == Ok && Displaces(last.op, p)) && exists i :: LastPut(front, i, p))
  {
    var n := |log| - 1;
    if i :| LastPut(log, i, p) {
      assert i < n ==> LastPut(log[..n], i, p);
    }
    if i :| LastPut(log[..n], i, p) {
      if !(log[n].result == Ok && Displaces(log[n].op, p)) {
        assert LastPut(log, i, p);
      }
    }
    if log[n].result == Ok && log[n].op == PutPrincipal(p) {
      assert LastPut(log, n, p);
    }
  }

  /** A log leaves exactly the principals that were put and not displaced since: by a Put of their access
      key ID or their name, or by a Delete of their name.
   */
  lemma {:induction false} StoredExactly(log: seq<Entry<PrincipalOp>>, k: string, p: Principal)
    ensures
      var data := Replay(PRINCIPALS, map[], log);
      k in data && data[k] == p <==> k == p.accessKeyID && exists i :: LastPut(log, i, p)
  {
    if log != [] {
      var front, last := log[..|log| - 1], log[|log| - 1];
      StoredExactly(front, k, p);
      LastPutGrows(log, p);
      var before := Replay(PRINCIPALS, map[], front);
      if last.result == Ok {
        match last.op {
          case PutPrincipal(q) =>
            PutExact(before, q, k, p);
          case DeletePrincipal(name) =>
            DeleteExact(before, name, k, p);
        }
      }
    }
  }

  /** In every interleaving of any number of clients. */
  lemma StoredExactlyInRuns(states: seq<State<PrincipalOp, Principals>>, steps: seq<Step<PrincipalOp>>, k: string, p: Principal)
    requires IsRun(PRINCIPALS, map[], states, steps)
    ensures
      var s := states[|steps|];
      s.stored.Present? && k in s.stored.data && s.stored.data[k] == p <==>
        k == p.accessKeyID && exists i :: LastPut(s.log, i, p)
  {
    PrincipalsSensible();
    RunKeeps(PRINCIPALS, map[], states, steps);
    StoredExactly(states[|steps|].log, k, p);
  }

  /** The in-memory store, whose operations the log is a sequence of. */
  class InMemoryPrincipalStore {
    var principals: Principals

    constructor ()
      ensures principals == map[]
    {
      principals := map[];
    }

    /** Deletes while ranging, in whatever order. */
    method Put(p: Principal)
      modifies this
      ensures PrincipalEdit(PutPrincipal(p), old(principals)) == Write(principals)
      ensures forall k, q :: k in principals && principals[k] == q <==>
                if k == p.accessKeyID then q == p else k in old(principals) && old(principals)[k] == q && q.name != p.name
    {
      principals := DropRenamed(principals, p);
      principals := principals[p.accessKeyID := p];
    }

    /** Deletes the first entry of that name the iteration meets. */
    method Delete(name: string) returns (result: Outcome)
      requires UniqueNames(principals)
      modifies this
      ensures UniqueNames(principals)
      ensures PrincipalEdit(DeletePrincipal(name), old(principals)) ==
              if result == Ok then Write(principals) else Missing
      ensures result != Ok ==> result == NotFound && principals == old(principals)
      ensures result == Ok <==> exists k | k in old(principals) :: old(principals)[k].name == name
      ensures forall k, p :: k in principals && principals[k] == p <==> k in old(principals) && old(principals)[k] == p && p.name != name
    {
      var found := FindByName(principals, name);
      if found.None? {
        return NotFound;
      }
      assert principals - {found.value} == Without(principals, name);
      principals := principals - {found.value};
      result := Ok;
    }

    method GetByName(name: string) returns (r: Option<Principal>)
      requires UniqueNames(principals)
      ensures r.None? <==> !HasName(principals, name)
      ensures r.Some? ==> forall k | k in principals && principals[k].name == name :: principals[k] == r.value
    {
      var found := FindByName(principals, name);
      r := if found.Some? then Some(principals[found.value]) else None;
    }
  }

  /** The loop both stores share: remove the keys, other than the principal's own, that carry its name. */
  method DropRenamed(data: Principals, p: Principal) returns (kept: Principals)
    ensures kept == map k | k in data && (k == p.accessKeyID || data[k].name != p.name) :: data[k]
  {
    kept := data;
    var todo := data.Keys;
    while todo != {}
      invariant todo <= data.Keys
      invariant kept == map k | k in data && (k in todo || k == p.accessKeyID || data[k].name != p.name) :: data[k]
    {
      var k :| k in todo;
      todo := todo - {k};
      if k == p.accessKeyID {
        continue;
      }
      if data[k].name == p.name {
        kept := kept - {k};
      }
    }
  }

  /** findAccessKeyIDByName: some key of that name, in whatever order the map is searched. */
  method FindByName(data: Principals, name: string) returns (key: Option<string>)
    ensures key.Some? ==> key.value in data && data[key.value].name == name
    ensures key.None? <==> !HasName(data, name)
  {
    var todo := data.Keys;
    while todo != {}
      invariant todo <= data.Keys
      invariant forall k | k in data && k !in todo :: data[k].name != name
    {
      var k :| k in todo;
      if data[k].name == name {
        return Some(k);
      }
      todo := todo - {k};
    }
    key := None;
  }

  // ---------------------------------------------------------------- the Secret-backed store

  type World = State<PrincipalOp, Principals>

  lemma ReachableNames(w: World)
    requires Reachable(PRINCIPALS, map[], w)
    ensures UniqueNames(Contents(PRINCIPALS, w.stored))
  {
    var states, steps :| IsRun(PRINCIPALS, map[], states, steps) && states[|steps|] == w;
    NamesStayUnique(states, steps);
  }

  /** The Secret is never deleted, so losing the create race always finds the winner's. */
  lemma RefetchFinds(w: World, c: nat)
    requires Reachable(PRINCIPALS, map[], w) && At(w, c).Active? && At(w, c).stage.Refetching?
    ensures w.stored.Present?
  {
    PrincipalsSensible();
    ReachableInv(PRINCIPALS, map[], w);
    assert ClientInv(PRINCIPALS, w, w.clients[c]);
  }

  /** Between two moments a call of `op` was made and returned `outcome`. */
  ghost predicate Returned(before: World, after: World, op: PrincipalOp, outcome: Outcome) {
    exists h | |before.history| <= h < |after.history| ::
      after.history[h].op == op && after.history[h].result == outcome && |before.log| <= after.history[h].since
  }

  /** The store as one of the clients sees it. Each API call happens at one moment; before it the
      other clients may have taken any number of steps. `world` is the machine all of them run on,
      and every API call of the program is one of its steps.
   */
  class SecretPrincipalStore {
    ghost const me: nat
    ghost var world: World
    var stored: Object<Principals>
    var nextVersion: nat

    ghost predicate Valid()
      reads this
    {
      Reachable(PRINCIPALS, map[], world) && stored == world.stored && nextVersion == world.nextVersion
    }

    constructor (ghost me: nat)
      ensures this.me == me && Valid() && At(world, me).Idle?
    {
      this.me := me;
      world := State(Absent, 0, 0, map[], [], []);
      stored := Absent;
      nextVersion := 0;
      new;
      ReachableInit(PRINCIPALS, map[], world);
    }

    /** Any steps of the other clients: callers know no more of what happens here than this contract. */
    method Others()
      requires Valid()
      modifies this
      ensures Valid() && At(world, me) == old(At(world, me))
      ensures old(world.log) <= world.log && old(world.history) <= world.history
    {
    }

    ghost method Advance(step: Step<PrincipalOp>)
      requires Reachable(PRINCIPALS, map[], world) && step.c == me && Enabled(world, step)
      modifies this`world
      ensures world == Apply(PRINCIPALS, old(world), step) && Reachable(PRINCIPALS, map[], world)
    {
      ReachableStep(PRINCIPALS, map[], world, step);
      world := Apply(PRINCIPALS, world, step);
    }

    /** An API call may fail with an error that is neither a conflict nor not-found. */
    method MayFail() returns (failed: bool)
      requires Valid() && At(world, me).Active? && !At(world, me).stage.Returning?
      modifies this`world
      ensures Valid() && world.log == old(world.log) && world.history == old(world.history)
      ensures At(world, me) == if failed then old(At(world, me)).(stage := Returning(Failed)) else old(At(world, me))
    {
      failed := false;
      if * {
        Advance(Fail(me));
        failed := true;
      }
    }

    /** getSecret, the first API call of an attempt. */
    method GetSecret() returns (secret: Object<Principals>)
      requires Valid() && At(world, me).Active? && At(world, me).stage == Getting
      modifies this
      ensures Valid() && old(world.log) <= world.log && old(world.history) <= world.history
      ensures
        var client := old(At(world, me));
        At(world, me) == client.(stage :=
          if secret.Absent? then if client.op.PutPrincipal? then Creating else Returning(NotFound)
          else if PrincipalEdit(client.op, secret.data) == Missing then Returning(NotFound)
          else Holding(secret.version, secret.data))
      ensures secret == stored && (secret.Present? ==> UniqueNames(secret.data))
    {
      Others();
      secret := stored;
      ReachableNames(world);
      Advance(Step.Get(me));
    }

    /** createSecret, called when the Secret was absent: a lost race fetches the winner's Secret. */
    method CreateSecret() returns (secret: Object<Principals>)
      requires Valid() && At(world, me).Active? && At(world, me).stage == Creating && At(world, me).op.PutPrincipal?
      modifies this
      ensures Valid() && old(world.log) <= world.log && old(world.history) <= world.history
      ensures secret.Present? && At(world, me) == old(At(world, me)).(stage := Holding(secret.version, secret.data))
    {
      Others();
      Advance(Step.Create(me));
      if stored.Absent? {
        stored := Present(nextVersion, map[]);
        nextVersion := nextVersion + 1;
        return stored;
      }
      Others();
      RefetchFinds(world, me);
      secret := stored;
      Advance(Step.Refetch(me));
    }

    /** getOrCreateSecret: None when an API call failed. */
    method GetOrCreateSecret() returns (r: Option<Object<Principals>>)
      requires Valid() && At(world, me).Active? && At(world, me).stage == Getting && At(world, me).op.PutPrincipal?
      modifies this
      ensures Valid() && old(world.log) <= world.log && old(world.history) <= world.history
      ensures r.Some? ==> r.value.Present?
      ensures At(world, me) == old(At(world, me)).(stage :=
                if r.None? then Returning(Failed) else Holding(r.value.version, r.value.data))
    {
      var failed := MayFail();
      if failed {
        return None;
      }
      var secret := GetSecret();
      if secret.Absent? {
        failed := MayFail();
        if failed {
          return None;
        }
        secret := CreateSecret();
      }
      r := Some(secret);
    }

    /** updateSecret: the write goes through when the resourceVersion is still the one that was read. */
    method UpdateSecret(version: nat, ghost read: Principals, data: Principals) returns (conflict: bool)
      requires Valid() && At(world, me).Active? && At(world, me).stage == Holding(version, read)
      requires PrincipalEdit(At(world, me).op, read) == Write(data)
      modifies this
      ensures Valid() && old(world.log) <= world.log && old(world.history) <= world.history
      ensures if conflict then !(stored.Present? && stored.version == version) else stored.Present? && stored.data == data
      ensures
        var client := old(At(world, me));
        At(world, me) == if !conflict then client.(stage := Returning(Ok))
                         else if client.attempts < MAX_ATTEMPTS then client.(attempts := client.attempts + 1, stage := Getting)
                         else client.(stage := Returning(Conflicted))
    {
      Others();
      Advance(Step.Update(me));
      conflict := stored.Absent? || stored.version != version;
      if !conflict {
        stored := Present(nextVersion, data);
        nextVersion := nextVersion + 1;
      }
    }

    /** What one run of a retried closure does to the call: None is a conflict. */
    ghost predicate Attempted(before: Client<PrincipalOp, Principals>, outcome: Option<Outcome>)
      requires before.Active?
      reads this
    {
      At(world, me) ==
        if outcome.Some? then before.(stage := Returning(outcome.value))
        else if before.attempts < MAX_ATTEMPTS then before.(attempts := before.attempts + 1, stage := Getting)
        else before.(stage := Returning(Conflicted))
    }

    /** Put's closure: read or create the Secret, edit the copy, write it back. */
    method PutOnce(p: Principal) returns (outcome: Option<Outcome>)
      requires Valid() && At(world, me).Active? && At(world, me).stage == Getting && At(world, me).op == PutPrincipal(p)
      modifies this
      ensures Valid() && old(world.log) <= world.log && old(world.history) <= world.history
      ensures Attempted(old(At(world, me)), outcome)
    {
      var secret := GetOrCreateSecret();
      if secret.None? {
        return Some(Failed);
      }
      var data := DropRenamed(secret.value.data, p);
      var failed := MayFail();
      if failed {
        return Some(Failed);
      }
      var conflict := UpdateSecret(secret.value.version, secret.value.data, data[p.accessKeyID := p]);
      outcome := if conflict then None else Some(Ok);
    }

    /** Delete's closure: read the Secret, drop the entry of that name, write it back. */
    method DeleteOnce(name: string) returns (outcome: Option<Outcome>)
      requires Valid() && At(world, me).Active? && At(world, me).stage == Getting && At(world, me).op == DeletePrincipal(name)
      modifies this
      ensures Valid() && old(world.log) <= world.log && old(world.history) <= world.history
      ensures Attempted(old(At(world, me)), outcome)
    {
      var failed := MayFail();
      if failed {
        return Some(Failed);
      }
      var secret := GetSecret();
      if secret.Absent? {
        return Some(NotFound);
      }
      var key := FindByName(secret.data, name);
      if key.None? {
        return Some(NotFound);
      }
      assert secret.data - {key.value} == Without(secret.data, name);
      failed := MayFail();
      if failed {
        return Some(Failed);
      }
      var conflict := UpdateSecret(secret.version, secret.data, secret.data - {key.value});
      outcome := if conflict then None else Some(Ok);
    }

    /** retry.RetryOnConflict around one of the closures, then the return to the caller. */
    method Retried(op: PrincipalOp) returns (outcome: Outcome)
      requires Valid() && At(world, me).Idle?
      modifies this
      ensures Valid() && At(world, me).Idle?
      ensures Returned(old(world), world, op, outcome)
    {
      ghost var since := |world.log|;
      Advance(Start(me, op));
      var attempt, last := 1, None;
      while attempt <= MAX_ATTEMPTS && last.None?
        invariant Valid() && 1 <= attempt <= MAX_ATTEMPTS + 1
        invariant
          var client := At(world, me);
          && client.Active? && client.op == op && client.since == since
          && (last.Some? ==> client.stage == Returning(last.value))
          && (last.None? && attempt <= MAX_ATTEMPTS ==> client.stage == Getting && client.attempts == attempt)
          && (last.None? && attempt > MAX_ATTEMPTS ==> client.stage == Returning(Conflicted))
        invariant old(world.log) <= world.log && old(world.history) <= world.history
        decreases MAX_ATTEMPTS - attempt
      {
        if op.PutPrincipal? {
          last := PutOnce(op.principal);
        } else {
          last := DeleteOnce(op.name);
        }
        attempt := attempt + 1;
      }
      outcome := if last.Some? then last.value else Conflicted;
      ghost var h := |world.history|;
      Advance(Return(me));
      assert world.history[h].op == op && world.history[h].result == outcome && world.history[h].since == since;
    }

    method Put(p: Principal) returns (outcome: Outcome)
      requires Valid() && At(world, me).Idle?
      modifies this
      ensures Valid() && At(world, me).Idle?
      ensures Returned(old(world), world, PutPrincipal(p), outcome)
    {
      outcome := Retried(PutPrincipal(p));
    }

    method Delete(name: string) returns (outcome: Outcome)
      requires Valid() && At(world, me).Idle?
      modifies this
      ensures Valid() && At(world, me).Idle?
      ensures Returned(old(world), world, DeletePrincipal(name), outcome)
    {
      outcome := Retried(DeletePrincipal(name));
    }
  }

  /** What a caller learns from an outcome: success and not-found name one point of the log inside the
      call, any other outcome none at all.
   */
  lemma ReturnedMeans(before: World, after: World, op: PrincipalOp, outcome: Outcome)
    requires Reachable(PRINCIPALS, map[], after) && Returned(before, after, op, outcome)
    ensures exists call :: |Own(after.log, call)| == (if outcome == Ok || outcome == NotFound then 1 else 0)
              && forall k | k in Own(after.log, call) :: |before.log| <= k && after.log[k] == Entry(call, op, outcome)
  {
    var h :| |before.history| <= h < |after.history| && after.history[h].op == op && after.history[h].result == outcome
             && |before.log| <= after.history[h].since;
    var call := after.history[h];
    PrincipalsSensible();
    ReachableInv(PRINCIPALS, map[], after);
    assert Accounted(after.log, call.id, call.op, call.since, call.until, call.result);
    OnceInLog(after.log, call.id, op, call.since, call.until, outcome);
  }

  // ---------------------------------------------------------------- pod identity associations

  datatype Association = Association(namespace: string, serviceAccount: string, roleArn: string, associationID: string)

  datatype AssociationOp = PutAssociation(association: Association) | DeleteAssociation(namespace: string, serviceAccount: string)

  function PodIdentityKey(namespace: string, serviceAccount: string): string {
    namespace + "." + serviceAccount
  }

  function AssociationEdit(op: AssociationOp, data: map<string, Association>): Edit<map<string, Association>> {
    match op
    case PutAssociation(a) => Write(data[PodIdentityKey(a.namespace, a.serviceAccount) := a])
    case DeleteAssociation(ns, sa) =>
      var key := PodIdentityKey(ns, sa);
      if key in data then Write(map k | k in data && k != key :: data[k]) else Missing
  }

  const ASSOCIATIONS: Registry<AssociationOp, map<string, Association>> :=
    Registry(map[], (op: AssociationOp) => op.PutAssociation?,
             (op: AssociationOp, data: map<string, Association>) => AssociationEdit(op, data))

  lemma AssociationsSensible()
    ensures Sensible(ASSOCIATIONS)
  {
  }

  /** One namespace is the other with a dot and a first part of the other's service account. */
  predicate Extends(ns: string, sa: string, ns': string, sa': string) {
    |ns| < |ns'| && ns'[..|ns|] == ns && ns'[|ns|] == '.' && sa == ns'[|ns| + 1..] + "." + sa'
  }

  /** Different pairs under one key. */
  predicate Collide(ns: string, sa: string, ns': string, sa': string) {
    Extends(ns, sa, ns', sa') || Extends(ns', sa', ns, sa)
  }

  lemma KeyParts(ns: string, sa: string)
    ensures
      var key := PodIdentityKey(ns, sa);
      |key| == |ns| + 1 + |sa| && key[..|ns|] == ns && key[|ns|] == '.' && key[|ns| + 1..] == sa
  {
  }

  lemma ShorterNamespace(ns: string, sa: string, ns': string, sa': string)
    requires |ns| < |ns'|
    ensures PodIdentityKey(ns, sa) == PodIdentityKey(ns', sa') <==> Extends(ns, sa, ns', sa')
  {
    var key, n, n' := PodIdentityKey(ns, sa), |ns|, |ns'|;
    KeyParts(ns, sa);
    KeyParts(ns', sa');
    if key == PodIdentityKey(ns', sa') {
      assert ns'[..n] == key[..n'][..n] == key[..n];
      assert ns'[n] == key[..n'][n];
      assert ns'[n + 1..] == key[n + 1..n'];
      assert sa == key[n + 1..] == key[n + 1..n'] + [key[n']] + key[n' + 1..];
    }
    if Extends(ns, sa, ns', sa') {
      assert ns' == ns + "." + ns'[n + 1..];
      assert ns + "." + (ns'[n + 1..] + "." + sa') == ns + "." + ns'[n + 1..] + "." + sa';
    }
  }

  /** Exactly when two pairs share a key: they are the same pair, or they collide. */
  lemma PodIdentityKeysExactly(ns: string, sa: string, ns': string, sa': string)
    ensures PodIdentityKey(ns, sa) == PodIdentityKey(ns', sa') <==> (ns == ns' && sa == sa') || Collide(ns, sa, ns', sa')
  {
    if |ns| < |ns'| {
      ShorterNamespace(ns, sa, ns', sa');
    } else if |ns'| < |ns| {
      ShorterNamespace(ns', sa', ns, sa);
    } else {
      KeyParts(ns, sa);
      KeyParts(ns', sa');
    }
  }

  lemma ExtendingTakesDot(ns: string, sa: string, ns': string, sa': string)
    ensures Extends(ns, sa, ns', sa') ==> '.' in ns'
  {
  }

  /** Where namespaces have no dot, as Kubernetes namespaces do, a key names one pair; the service account
      may contain dots.
   */
  lemma PodIdentityKeyInjective(ns: string, sa: string, ns': string, sa': string)
    requires '.' !in ns && '.' !in ns'
    requires PodIdentityKey(ns, sa) == PodIdentityKey(ns', sa')
    ensures ns == ns' && sa == sa'
  {
    PodIdentityKeysExactly(ns, sa, ns', sa');
    ExtendingTakesDot(ns, sa, ns', sa');
    ExtendingTakesDot(ns', sa', ns, sa);
  }

  predicate IsOf(a: Association, ns: string, sa: string) {
    a.namespace == ns && a.serviceAccount == sa
  }

  /** Each association sits under the key of its own pair. */
  ghost predicate KeyedByPair(data: map<string, Association>) {
    forall k | k in data :: k == PodIdentityKey(data[k].namespace, data[k].serviceAccount)
  }

  lemma {:induction false} AssociationsStayKeyed(log: seq<Entry<AssociationOp>>)
    ensures KeyedByPair(Replay(ASSOCIATIONS, map[], log))
  {
    if log != [] {
      AssociationsStayKeyed(log[..|log| - 1]);
    }
  }

  /** In every interleaving of any number of clients. */
  lemma AssociationsKeyedInRuns(states: seq<State<AssociationOp, map<string, Association>>>, steps: seq<Step<AssociationOp>>)
    requires IsRun(ASSOCIATIONS, map[], states, steps)
    ensures KeyedByPair(Contents(ASSOCIATIONS, states[|steps|].stored))
  {
    AssociationsSensible();
    Linearizable(ASSOCIATIONS, map[], states, steps);
    AssociationsStayKeyed(states[|steps|].log);
  }

  /** One operation changes what is under its own pair's key and nothing else. */
  lemma AssociationEditExact(op: AssociationOp, data: map<string, Association>, k: string, a: Association)
    ensures
      var edited, key := AssociationEdit(op, data), AssociationKey(op);
      && (edited == Missing <==> op.DeleteAssociation? && key !in data)
      && (edited.Write? ==> (k in edited.data && edited.data[k] == a <==>
            if k == key then op == PutAssociation(a) else k in data && data[k] == a))
  {
  }

  function AssociationKey(op: AssociationOp): string {
    match op
    case PutAssociation(a) => a.namespace + "." + a.serviceAccount
    case DeleteAssociation(ns, sa) => ns + "." + sa
  }

  /** Entry i puts the association, and no later entry that succeeded is about the same key. */
  ghost predicate LastAssociated(log: seq<Entry<AssociationOp>>, i: int, a: Association) {
    && 0 <= i < |log| && log[i].result == Ok && log[i].op == PutAssociation(a)
    && forall j | i < j < |log| && log[j].result == Ok :: AssociationKey(log[j].op) != AssociationKey(log[i].op)
  }

  lemma LastAssociatedGrows(log: seq<Entry<AssociationOp>>, a: Association)
    requires log != []
    ensures
      var front, last := log[..|log| - 1], log[|log| - 1];
      (exists i :: LastAssociated(log, i, a)) <==>
        || (last.result == Ok && last.op == PutAssociation(a))
        || (!(last.result == Ok && AssociationKey(last.op) == AssociationKey(PutAssociation(a)))
            && exists i :: LastAssociated(front, i, a))
  {
    var n := |log| - 1;
    if i :| LastAssociated(log, i, a) {
      assert i < n ==> LastAssociated(log[..n], i, a);
    }
    if i :| LastAssociated(log[..n], i, a) {
      if !(log[n].result == Ok && AssociationKey(log[n].op) == AssociationKey(PutAssociation(a))) {
        assert LastAssociated(log, i, a);
      }
    }
    if log[n].result == Ok && log[n].op == PutAssociation(a) {
      assert LastAssociated(log, n, a);
    }
  }

  /** A log leaves exactly the associations that were put last under their key. */
  lemma {:induction false} AssociatedExactly(log: seq<Entry<AssociationOp>>, k: string, a: Association)
    ensures
      var data := Replay(ASSOCIATIONS, map[], log);
      k in data && data[k] == a <==> k == a.namespace + "." + a.serviceAccount && exists i :: LastAssociated(log, i, a)
  {
    if log != [] {
      var front, last := log[..|log| - 1], log[|log| - 1];
      AssociatedExactly(front, k, a);
      LastAssociatedGrows(log, a);
      AssociationEditExact(last.op, Replay(ASSOCIATIONS, map[], front), k, a);
    }
  }

  /** A lookup finds the pair's association if one is stored, and otherwise nothing or that of a pair that
      collides with it, which takes a namespace with a dot.
   */
  lemma LookupIsExact(data: map<string, Association>, ns: string, sa: string)
    requires KeyedByPair(data)
    ensures
      var key := PodIdentityKey(ns, sa);
      && ((key in data && IsOf(data[key], ns, sa)) <==> exists k | k in data :: IsOf(data[k], ns, sa))
      && (key in data ==> IsOf(data[key], ns, sa) || Collide(ns, sa, data[key].namespace, data[key].serviceAccount))
      && (key in data && '.' !in ns && '.' !in data[key].namespace ==> IsOf(data[key], ns, sa))
  {
    var key := PodIdentityKey(ns, sa);
    if key in data {
      PodIdentityKeysExactly(ns, sa, data[key].namespace, data[key].serviceAccount);
      if '.' !in ns && '.' !in data[key].namespace {
        PodIdentityKeyInjective(ns, sa, data[key].namespace, data[key].serviceAccount);
      }
    }
  }

  /** Registering one pair displaces another pair's association exactly when the two collide. */
  lemma PutDisplacesExactly(data: map<string, Association>, a: Association, other: Association)
    requires KeyedByPair(data) && other in data.Values && !IsOf(other, a.namespace, a.serviceAccount)
    ensures other !in AssociationEdit(PutAssociation(a), data).data.Values <==>
            Collide(a.namespace, a.serviceAccount, other.namespace, other.serviceAccount)
  {
    var key := PodIdentityKey(a.namespace, a.serviceAccount);
    var k :| k in data && data[k] == other;
    PodIdentityKeysExactly(a.namespace, a.serviceAccount, other.namespace, other.serviceAccount);
    var after := data[key := a];
    assert k != key ==> k in after && after[k] == other;
    if other in after.Values {
      var l :| l in after && after[l] == other;
      assert l in data && data[l] == other && l == k;
    }
  }

  /** The service account "b.c" of namespace "a" and the service account "c" of "a.b" share a key. */
  lemma PodIdentityKeysCollide(a: Association, b: Association)
    requires IsOf(a, "a", "b.c") && IsOf(b, "a.b", "c")
    ensures PodIdentityKey("a", "b.c") == PodIdentityKey("a.b", "c")
    ensures
      var key := PodIdentityKey("a", "b.c");
      AssociationEdit(PutAssociation(b), map[key := a]) == Write(map[key := b])
  {
    assert PodIdentityKey("a", "b.c") == "a.b.c" == PodIdentityKey("a.b", "c");
    assert map["a.b.c" := a]["a.b.c" := b] == map["a.b.c" := b];
  }

  // ---------------------------------------------------------------- access entries

  datatype AccessPolicy = AccessPolicy(policyARN: string, scopeType: string, namespaces: seq<string>)

  datatype AccessEntry = AccessEntry(
    principalARN: string, username: string, kubernetesGroups: seq<string>, entryType: string, policies: seq<AccessPolicy>)

  datatype AccessEntryOp = PutEntry(entry: AccessEntry) | DeleteEntry(principalARN: string)

  function EntryARN(op: AccessEntryOp): string {
    if op.PutEntry? then op.entry.principalARN else op.principalARN
  }

  /** The ConfigMap keys entries by a digest of the ARN. */
  function EntryEdit(hash: string -> string, op: AccessEntryOp, data: map<string, AccessEntry>): Edit<map<string, AccessEntry>> {
    var key := hash(EntryARN(op));
    match op
    case PutEntry(entry) => Write(data[key := entry])
    case DeleteEntry(_) => if key in data then Write(map k | k in data && k != key :: data[k]) else Missing
  }

  function AccessEntries(hash: string -> string): Registry<AccessEntryOp, map<string, AccessEntry>> {
    Registry(map[], (op: AccessEntryOp) => op.PutEntry?, (op: AccessEntryOp, data: map<string, AccessEntry>) => EntryEdit(hash, op, data))
  }

  lemma AccessEntriesSensible(hash: string -> string)
    ensures Sensible(AccessEntries(hash))
  {
  }

  /** The in-memory store keys entries by the ARN itself. */
  function InMemoryEdit(op: AccessEntryOp, entries: map<string, AccessEntry>): Edit<map<string, AccessEntry>> {
    match op
    case PutEntry(entry) => Write(entries[entry.principalARN := entry])
    case DeleteEntry(arn) => if arn in entries then Write(map k | k in entries && k != arn :: entries[k]) else Missing
  }

  /** One operation changes what is under its own principal's ARN and nothing else. */
  lemma InMemoryEditExact(op: AccessEntryOp, entries: map<string, AccessEntry>, arn: string, entry: AccessEntry)
    ensures
      var edited := InMemoryEdit(op, entries);
      && (edited == Missing <==> op.DeleteEntry? && op.principalARN !in entries)
      && (edited.Write? ==> (arn in edited.data && edited.data[arn] == entry <==>
            if arn == EntryARN(op) then op == PutEntry(entry) else arn in entries && entries[arn] == entry))
  {
  }

  /** Entry i puts the access entry, and no later entry that succeeded is about the same principal. */
  ghost predicate LastEntered(log: seq<Entry<AccessEntryOp>>, i: int, entry: AccessEntry) {
    && 0 <= i < |log| && log[i].result == Ok && log[i].op == PutEntry(entry)
    && forall j | i < j < |log| && log[j].result == Ok :: !IsAbout(log[j].op, entry.principalARN)
  }

  predicate IsAbout(op: AccessEntryOp, arn: string) {
    match op
    case PutEntry(entry) => entry.principalARN == arn
    case DeleteEntry(principalARN) => principalARN == arn
  }

  lemma LastEnteredGrows(log: seq<Entry<AccessEntryOp>>, entry: AccessEntry)
    requires log != []
    ensures
      var front, last := log[..|log| - 1], log[|log| - 1];
      (exists i :: LastEntered(log, i, entry)) <==>
        || (last.result == Ok && last.op == PutEntry(entry))
        || (!(last.result == Ok && IsAbout(last.op, entry.principalARN)) && exists i :: LastEntered(front, i, entry))
  {
    var n := |log| - 1;
    if i :| LastEntered(log, i, entry) {
      assert i < n ==> LastEntered(log[..n], i, entry);
    }
    if i :| LastEntered(log[..n], i, entry) {
      if !(log[n].result == Ok && IsAbout(log[n].op, entry.principalARN)) {
        assert LastEntered(log, i, entry);
      }
    }
    if log[n].result == Ok && log[n].op == PutEntry(entry) {
      assert LastEntered(log, n, entry);
    }
  }

  /** A log leaves, in the in-memory store, exactly the entries that were put last for their principal. */
  lemma {:induction false} EnteredExactly(log: seq<Entry<AccessEntryOp>>, arn: string, entry: AccessEntry)
    ensures
      var entries := Replay(InMemoryEntries(), map[], log);
      arn in entries && entries[arn] == entry <==> arn == entry.principalARN && exists i :: LastEntered(log, i, entry)
  {
    if log != [] {
      var front, last := log[..|log| - 1], log[|log| - 1];
      EnteredExactly(front, arn, entry);
      LastEnteredGrows(log, entry);
      InMemoryEditExact(last.op, Replay(InMemoryEntries(), map[], front), arn, entry);
    }
  }

  /** The two stores hold the same entries, for the principals in `known`. */
  ghost predicate SameEntries(hash: string -> string, known: set<string>, data: map<string, AccessEntry>, entries: map<string, AccessEntry>) {
    && (forall k | k in data :: data[k].principalARN in known && k == hash(data[k].principalARN))
    && (forall arn | arn in entries :: arn in known && entries[arn].principalARN == arn)
    && (forall arn | arn in known :: (hash(arn) in data <==> arn in entries) && (arn in entries ==> data[hash(arn)] == entries[arn]))
  }

  ghost predicate InjectiveOn(hash: string -> string, known: set<string>) {
    forall a, b | a in known && b in known && hash(a) == hash(b) :: a == b
  }

  /** Where the digest tells the principals apart, the ConfigMap store does what the in-memory one does. */
  lemma EntryEditRefines(hash: string -> string, known: set<string>, op: AccessEntryOp,
                         data: map<string, AccessEntry>, entries: map<string, AccessEntry>)
    requires InjectiveOn(hash, known) && EntryARN(op) in known && SameEntries(hash, known, data, entries)
    ensures
      var edited, memory := EntryEdit(hash, op, data), InMemoryEdit(op, entries);
      (edited.Write? <==> memory.Write?) && (edited.Write? ==> SameEntries(hash, known, edited.data, memory.data))
  {
  }

  function InMemoryEntries(): Registry<AccessEntryOp, map<string, AccessEntry>> {
    Registry(map[], (op: AccessEntryOp) => op.PutEntry?, (op: AccessEntryOp, entries: map<string, AccessEntry>) => InMemoryEdit(op, entries))
  }

  /** A log of ConfigMap operations leaves the entries the in-memory store would hold. */
  lemma {:induction false} EntryReplayRefines(hash: string -> string, known: set<string>, log: seq<Entry<AccessEntryOp>>)
    requires InjectiveOn(hash, known) && forall k | 0 <= k < |log| :: EntryARN(log[k].op) in known
    ensures SameEntries(hash, known, Replay(AccessEntries(hash), map[], log), Replay(InMemoryEntries(), map[], log))
  {
    if log != [] {
      var front, last := log[..|log| - 1], log[|log| - 1];
      EntryReplayRefines(hash, known, front);
      assert EntryARN(last.op) in known;
      EntryEditRefines(hash, known, last.op, Replay(AccessEntries(hash), map[], front), Replay(InMemoryEntries(), map[], front));
    }
  }

  /** In every interleaving the ConfigMap holds what the in-memory store would after the same operations. */
  lemma EntriesRefineInRuns(hash: string -> string, known: set<string>,
                            states: seq<State<AccessEntryOp, map<string, AccessEntry>>>, steps: seq<Step<AccessEntryOp>>)
    requires IsRun(AccessEntries(hash), map[], states, steps) && InjectiveOn(hash, known)
    requires forall k | 0 <= k < |states[|steps|].log| :: EntryARN(states[|steps|].log[k].op) in known
    ensures
      var s := states[|steps|];
      SameEntries(hash, known, Contents(AccessEntries(hash), s.stored), Replay(InMemoryEntries(), map[], s.log))
  {
    AccessEntriesSensible(hash);
    Linearizable(AccessEntries(hash), map[], states, steps);
    EntryReplayRefines(hash, known, states[|steps|].log);
  }

  /** In every interleaving the ConfigMap holds an entry for a known principal exactly when the entry was
      put last for it, under the digest of its ARN.
   */
  lemma EnteredExactlyInRuns(hash: string -> string, known: set<string>,
                             states: seq<State<AccessEntryOp, map<string, AccessEntry>>>, steps: seq<Step<AccessEntryOp>>,
                             entry: AccessEntry)
    requires IsRun(AccessEntries(hash), map[], states, steps) && InjectiveOn(hash, known)
    requires forall k | 0 <= k < |states[|steps|].log| :: EntryARN(states[|steps|].log[k].op) in known
    requires entry.principalARN in known
    ensures
      var s, key := states[|steps|], hash(entry.principalARN);
      s.stored.Present? && key in s.stored.data && s.stored.data[key] == entry <==> exists i :: LastEntered(s.log, i, entry)
  {
    EntriesRefineInRuns(hash, known, states, steps);
    EnteredExactly(states[|steps|].log, entry.principalARN, entry);
  }
}
