/** The optimistic-concurrency protocol behind fjord's registries (internal/agent/store.go,
    internal/agent/accessentry.go).

    One Secret or ConfigMap holds a whole registry. A client reads it (creating it first if its
    operation may), edits its copy and writes the copy back conditional on the resourceVersion it
    read; a conflict starts over, at most five times. The machine runs any number of clients, one API
    call at a time, in every interleaving, and keeps a log of the operations in the order in which
    they took effect. Operations and data are parameters, so one proof serves the three registries.
 */
module OptimisticStore {

  /** client-go's retry.DefaultRetry. */
  const MAX_ATTEMPTS := 5

  /** What an operation makes of the data it read: new data to write, or a not-found error. */
  datatype Edit<+D> = Write(data: D) | Missing

  /** A registry: `creates` says which operations may create the object, which starts out `empty`. */
  datatype Registry<!O, !D> = Registry(empty: D, creates: O -> bool, edit: (O, D) -> Edit<D>)

  /** Operations that create never miss, the others miss on an empty registry. */
  ghost predicate Sensible<O(!new), D(!new)>(reg: Registry<O, D>) {
    && (forall op, d :: reg.creates(op) ==> reg.edit(op, d).Write?)
    && (forall op :: !reg.creates(op) ==> reg.edit(op, reg.empty) == Missing)
  }

  datatype Object<+D> = Absent | Present(version: nat, data: D)

  datatype Outcome = Ok | NotFound | Conflicted | Failed

  datatype Stage<+D> =
    | Getting  // about to read the object
    | Creating  // it was absent; about to create it
    | Refetching  // lost the create race; about to read the winner's object
    | Holding(version: nat, data: D)  // about to write back the edited copy
    | Returning(result: Outcome)

  datatype Client<+O, +D> = Idle | Active(call: nat, op: O, since: nat, attempts: nat, stage: Stage<D>)

  /** An operation taking effect. */
  datatype Entry<+O> = Entry(call: nat, op: O, result: Outcome)

  /** A call that returned: the log had length `since` when it was made and `until` when it returned. */
  datatype Call<+O> = Call(id: nat, op: O, since: nat, until: nat, result: Outcome)

  datatype State<O, D> = State(
    stored: Object<D>, nextVersion: nat, nextCall: nat,
    clients: map<nat, Client<O, D>>, log: seq<Entry<O>>, history: seq<Call<O>>)

  datatype Step<+O> =
    | Start(c: nat, op: O)
    | Get(c: nat)
    | Create(c: nat)
    | Refetch(c: nat)
    | Update(c: nat)
    | Fail(c: nat)
    | Return(c: nat)

  function At<O, D>(s: State<O, D>, c: nat): Client<O, D> {
    if c in s.clients then s.clients[c] else Idle
  }

  ghost predicate Enabled<O, D>(s: State<O, D>, step: Step<O>) {
    var client := At(s, step.c);
    match step
    case Start(_, _) => client.Idle?
    case Get(_) => client.Active? && client.stage == Getting
    case Create(_) => client.Active? && client.stage == Creating
    case Refetch(_) => client.Active? && client.stage == Refetching
    case Update(_) => client.Active? && client.stage.Holding?
    case Fail(_) => client.Active? && !client.stage.Returning?
    case Return(_) => client.Active? && client.stage.Returning?
  }

  function Move<O, D>(s: State<O, D>, c: nat, stage: Stage<D>): State<O, D>
    requires At(s, c).Active?
  {
    s.(clients := s.clients[c := At(s, c).(stage := stage)])
  }

  /** The operation takes effect, and the call is about to return. */
  function TakeEffect<O, D>(s: State<O, D>, c: nat, result: Outcome): State<O, D>
    requires At(s, c).Active?
  {
    Move(s, c, Returning(result)).(log := s.log + [Entry(At(s, c).call, At(s, c).op, result)])
  }

  /** What follows a read: the closure keeps the copy, or finds nothing to change in it. */
  ghost function AfterRead<O, D>(reg: Registry<O, D>, s: State<O, D>, c: nat, version: nat, data: D): State<O, D>
    requires At(s, c).Active?
  {
    if reg.edit(At(s, c).op, data) == Missing then TakeEffect(s, c, NotFound)
    else Move(s, c, Holding(version, data))
  }

  ghost function OnGet<O, D>(reg: Registry<O, D>, s: State<O, D>, c: nat): State<O, D>
    requires At(s, c).Active?
  {
    match s.stored {
      case Absent => if reg.creates(At(s, c).op) then Move(s, c, Creating) else TakeEffect(s, c, NotFound)
      case Present(version, data) => AfterRead(reg, s, c, version, data)
    }
  }

  ghost function OnCreate<O, D>(reg: Registry<O, D>, s: State<O, D>, c: nat): State<O, D>
    requires At(s, c).Active?
  {
    if s.stored.Present? then Move(s, c, Refetching)
    else
      Move(s, c, Holding(s.nextVersion, reg.empty))
      .(stored := Present(s.nextVersion, reg.empty), nextVersion := s.nextVersion + 1)
  }

  ghost function OnRefetch<O, D>(reg: Registry<O, D>, s: State<O, D>, c: nat): State<O, D>
    requires At(s, c).Active?
  {
    match s.stored {
      case Absent => Move(s, c, Returning(Failed))
      case Present(version, data) => AfterRead(reg, s, c, version, data)
    }
  }

  /** The conditional update, and the retry after a conflict. */
  ghost function OnUpdate<O, D>(reg: Registry<O, D>, s: State<O, D>, c: nat): State<O, D>
    requires At(s, c).Active? && At(s, c).stage.Holding?
  {
    var client := At(s, c);
    var edited := reg.edit(client.op, client.stage.data);
    if s.stored.Present? && s.stored.version == client.stage.version && edited.Write? then
      TakeEffect(s, c, Ok).(stored := Present(s.nextVersion, edited.data), nextVersion := s.nextVersion + 1)
    else if client.attempts < MAX_ATTEMPTS then
      s.(clients := s.clients[c := client.(attempts := client.attempts + 1, stage := Getting)])
    else Move(s, c, Returning(Conflicted))
  }

  ghost function Apply<O, D>(reg: Registry<O, D>, s: State<O, D>, step: Step<O>): State<O, D>
    requires Enabled(s, step)
  {
    var client := At(s, step.c);
    match step
    case Start(c, op) =>
      s.(clients := s.clients[c := Active(s.nextCall, op, |s.log|, 1, Getting)], nextCall := s.nextCall + 1)
    case Get(c) => OnGet(reg, s, c)
    case Create(c) => OnCreate(reg, s, c)
    case Refetch(c) => OnRefetch(reg, s, c)
    case Update(c) => OnUpdate(reg, s, c)
    case Fail(c) => Move(s, c, Returning(Failed))
    case Return(c) =>
      s.(clients := s.clients[c := Idle],
         history := s.history + [Call(client.call, client.op, client.since, |s.log|, client.stage.result)])
  }

  // ---------------------------------------------------------------- the sequential reading

  /** The data after the logged operations ran one at a time. */
  ghost function Replay<O, D>(reg: Registry<O, D>, start: D, log: seq<Entry<O>>): D {
    if log == [] then start
    else
      var before, last := Replay(reg, start, log[..|log| - 1]), log[|log| - 1];
      var edited := reg.edit(last.op, before);
      if last.result == Ok && edited.Write? then edited.data else before
  }

  /** Each logged result is the one the operation gives when the operations before it have run. */
  ghost predicate Legal<O, D>(reg: Registry<O, D>, start: D, log: seq<Entry<O>>) {
    forall k | 0 <= k < |log| ::
      var edited := reg.edit(log[k].op, Replay(reg, start, log[..k]));
      if edited.Write? then log[k].result == Ok else log[k].result == NotFound
  }

  function Contents<O, D>(reg: Registry<O, D>, stored: Object<D>): D {
    if stored.Present? then stored.data else reg.empty
  }

  // ---------------------------------------------------------------- invariant

  ghost predicate Logged<O>(log: seq<Entry<O>>, call: nat) {
    exists k | 0 <= k < |log| :: log[k].call == call
  }

  /** The log says of a call what its result says: it took effect once, or never. */
  ghost predicate Accounted<O>(log: seq<Entry<O>>, call: nat, op: O, since: nat, until: nat, result: Outcome) {
    if result == Ok || result == NotFound
    then exists k | since <= k < until :: k < |log| && log[k] == Entry(call, op, result)
    else !Logged(log, call)
  }

  ghost predicate ClientInv<O, D>(reg: Registry<O, D>, s: State<O, D>, client: Client<O, D>) {
    client.Active? ==>
      && client.call < s.nextCall && client.since <= |s.log| && client.attempts <= MAX_ATTEMPTS
      && (client.stage.Creating? ==> reg.creates(client.op))
      && (client.stage.Refetching? ==> s.stored.Present?)
      && (client.stage.Holding? ==>
            && s.stored.Present? && client.stage.version < s.nextVersion
            && reg.edit(client.op, client.stage.data).Write?
            && (client.stage.version == s.stored.version ==> client.stage.data == s.stored.data))
      && (if client.stage.Returning? then Accounted(s.log, client.call, client.op, client.since, |s.log|, client.stage.result)
          else !Logged(s.log, client.call))
  }

  ghost predicate CallsDistinct<O, D>(s: State<O, D>) {
    && (forall k, l | 0 <= k < l < |s.log| :: s.log[k].call != s.log[l].call)
    && (forall k | 0 <= k < |s.log| :: s.log[k].call < s.nextCall)
    && (forall c, d | c in s.clients && d in s.clients && c != d ::
          s.clients[c].Active? && s.clients[d].Active? ==> s.clients[c].call != s.clients[d].call)
    && (forall h | 0 <= h < |s.history| :: s.history[h].id < s.nextCall)
    && (forall h, c | 0 <= h < |s.history| && c in s.clients && s.clients[c].Active? :: s.history[h].id != s.clients[c].call)
    && (forall g, h | 0 <= g < h < |s.history| :: s.history[g].id != s.history[h].id)
  }

  ghost predicate HistoryInv<O, D>(s: State<O, D>) {
    forall h | 0 <= h < |s.history| ::
      var call := s.history[h];
      call.until <= |s.log| && Accounted(s.log, call.id, call.op, call.since, call.until, call.result)
  }

  ghost predicate DataInv<O, D>(reg: Registry<O, D>, start: D, s: State<O, D>) {
    && Legal(reg, start, s.log)
    && Contents(reg, s.stored) == Replay(reg, start, s.log)
    && (s.stored.Present? ==> s.stored.version < s.nextVersion)
  }

  ghost predicate Inv<O, D>(reg: Registry<O, D>, start: D, s: State<O, D>) {
    && DataInv(reg, start, s)
    && (forall c | c in s.clients :: ClientInv(reg, s, s.clients[c]))
    && CallsDistinct(s)
    && HistoryInv(s)
  }

  /** No call is under way; the object is absent and the registry empty, or it holds `start`. */
  ghost predicate Init<O, D>(reg: Registry<O, D>, start: D, s: State<O, D>) {
    && Contents(reg, s.stored) == start
    && (s.stored.Present? ==> s.stored.version < s.nextVersion)
    && s.clients == map[] && s.log == [] && s.history == []
  }

  lemma InitHolds<O, D>(reg: Registry<O, D>, start: D, s: State<O, D>)
    requires Init(reg, start, s)
    ensures Inv(reg, start, s)
  {
  }

  // ---- the log grows at its end

  lemma ReplayLast<O, D>(reg: Registry<O, D>, start: D, log: seq<Entry<O>>, e: Entry<O>)
    ensures
      var before := Replay(reg, start, log);
      var edited := reg.edit(e.op, before);
      Replay(reg, start, log + [e]) == if e.result == Ok && edited.Write? then edited.data else before
  {
    assert (log + [e])[..|log|] == log;
  }

  lemma LegalLast<O, D>(reg: Registry<O, D>, start: D, log: seq<Entry<O>>, e: Entry<O>)
    requires Legal(reg, start, log)
    requires
      var edited := reg.edit(e.op, Replay(reg, start, log));
      if edited.Write? then e.result == Ok else e.result == NotFound
    ensures Legal(reg, start, log + [e])
  {
    forall k | 0 <= k < |log| ensures (log + [e])[..k] == log[..k] {
    }
    assert (log + [e])[..|log|] == log;
  }

  /** What the log says of other calls stays as it is when a call is logged. */
  lemma AccountedLast<O>(log: seq<Entry<O>>, e: Entry<O>, call: nat, op: O, since: nat, until: nat, result: Outcome)
    requires Accounted(log, call, op, since, until, result) && call != e.call && until <= |log|
    ensures Accounted(log + [e], call, op, since, until, result)
    ensures Accounted(log + [e], call, op, since, |log| + 1, result)
  {
    if result == Ok || result == NotFound {
      var k :| since <= k < until && k < |log| && log[k] == Entry(call, op, result);
      assert (log + [e])[k] == log[k];
    } else {
      NotLoggedLast(log, e, call);
    }
  }

  lemma NotLoggedLast<O>(log: seq<Entry<O>>, e: Entry<O>, call: nat)
    requires !Logged(log, call) && call != e.call
    ensures !Logged(log + [e], call)
  {
    forall k | 0 <= k < |log + [e]| ensures (log + [e])[k].call != call {
      if k < |log| {
        assert (log + [e])[k] == log[k];
      }
    }
  }

  // ---- steps

  /** Steps that only move one client. */
  lemma MoveKeeps<O, D>(reg: Registry<O, D>, start: D, s: State<O, D>, c: nat, client: Client<O, D>)
    requires Inv(reg, start, s) && At(s, c).Active?
    requires client.Active? && client.call == At(s, c).call && ClientInv(reg, s, client)
    ensures Inv(reg, start, s.(clients := s.clients[c := client]))
  {
  }

  /** A step that takes effect. The object stays or moves on to a version nobody holds. */
  lemma EffectKeeps<O, D>(reg: Registry<O, D>, start: D, s: State<O, D>, c: nat, result: Outcome, next: State<O, D>)
    requires Inv(reg, start, s) && At(s, c).Active? && !At(s, c).stage.Returning?
    requires
      var edited := reg.edit(At(s, c).op, Contents(reg, s.stored));
      if edited.Write? then
        result == Ok && s.stored.Present?
        && next == TakeEffect(s, c, Ok).(stored := Present(s.nextVersion, edited.data), nextVersion := s.nextVersion + 1)
      else
        result == NotFound && next == TakeEffect(s, c, NotFound)
    ensures Inv(reg, start, next)
  {
    var client := At(s, c);
    var e := Entry(client.call, client.op, result);
    LegalLast(reg, start, s.log, e);
    ReplayLast(reg, start, s.log, e);
    forall d | d in next.clients ensures ClientInv(reg, next, next.clients[d]) {
      if d == c {
        assert next.log[|s.log|] == e;
      } else {
        var other := next.clients[d];
        assert other == s.clients[d] && ClientInv(reg, s, other);
        if other.Active? {
          if other.stage.Returning? {
            AccountedLast(s.log, e, other.call, other.op, other.since, |s.log|, other.stage.result);
          } else {
            NotLoggedLast(s.log, e, other.call);
          }
        }
      }
    }
    EffectCalls(s, c, e, next);
    forall h | 0 <= h < |next.history|
      ensures var call := next.history[h];
              call.until <= |next.log| && Accounted(next.log, call.id, call.op, call.since, call.until, call.result)
    {
      var call := s.history[h];
      AccountedLast(s.log, e, call.id, call.op, call.since, call.until, call.result);
    }
  }

  lemma EffectCalls<O, D>(s: State<O, D>, c: nat, e: Entry<O>, next: State<O, D>)
    requires CallsDistinct(s) && At(s, c).Active? && e.call == At(s, c).call < s.nextCall && !Logged(s.log, e.call)
    requires next.log == s.log + [e] && next.history == s.history && next.nextCall == s.nextCall
    requires exists stage :: next.clients == s.clients[c := At(s, c).(stage := stage)]
    ensures CallsDistinct(next)
  {
    forall k, l | 0 <= k < l < |next.log| ensures next.log[k].call != next.log[l].call {
      assert next.log[k] == s.log[k];
    }
  }

  lemma StepKeeps<O(!new), D(!new)>(reg: Registry<O, D>, start: D, s: State<O, D>, step: Step<O>)
    requires Sensible(reg) && Inv(reg, start, s) && Enabled(s, step)
    ensures Inv(reg, start, Apply(reg, s, step))
  {
    var c, client, next := step.c, At(s, step.c), Apply(reg, s, step);
    match step
    case Start(_, op) => StartKeeps(reg, start, s, c, op);
    case Get(_) =>
      if s.stored.Absent? && reg.creates(client.op) {
        MoveKeeps(reg, start, s, c, client.(stage := Creating));
      } else if s.stored.Absent? || reg.edit(client.op, s.stored.data) == Missing {
        EffectKeeps(reg, start, s, c, NotFound, next);
      } else {
        MoveKeeps(reg, start, s, c, client.(stage := Holding(s.stored.version, s.stored.data)));
      }
    case Create(_) =>
      if s.stored.Absent? {
        CreateKeeps(reg, start, s, c);
      } else {
        MoveKeeps(reg, start, s, c, client.(stage := Refetching));
      }
    case Refetch(_) =>
      if reg.edit(client.op, s.stored.data) == Missing {
        EffectKeeps(reg, start, s, c, NotFound, next);
      } else {
        MoveKeeps(reg, start, s, c, client.(stage := Holding(s.stored.version, s.stored.data)));
      }
    case Update(_) =>
      if s.stored.version == client.stage.version {
        EffectKeeps(reg, start, s, c, Ok, next);
      } else if client.attempts < MAX_ATTEMPTS {
        MoveKeeps(reg, start, s, c, client.(attempts := client.attempts + 1, stage := Getting));
      } else {
        MoveKeeps(reg, start, s, c, client.(stage := Returning(Conflicted)));
      }
    case Fail(_) => MoveKeeps(reg, start, s, c, client.(stage := Returning(Failed)));
    case Return(_) => ReturnKeeps(reg, start, s, c);
  }

  lemma StartKeeps<O, D>(reg: Registry<O, D>, start: D, s: State<O, D>, c: nat, op: O)
    requires Inv(reg, start, s) && Enabled(s, Start(c, op))
    ensures Inv(reg, start, Apply(reg, s, Start(c, op)))
  {
    var next := Apply(reg, s, Start(c, op));
    assert !Logged(s.log, s.nextCall);
    forall d | d in next.clients ensures ClientInv(reg, next, next.clients[d]) {
      if d != c {
        assert ClientInv(reg, s, s.clients[d]);
      }
    }
  }

  lemma CreateKeeps<O(!new), D(!new)>(reg: Registry<O, D>, start: D, s: State<O, D>, c: nat)
    requires Sensible(reg) && Inv(reg, start, s) && Enabled(s, Create(c)) && s.stored.Absent?
    ensures Inv(reg, start, Apply(reg, s, Create(c)))
  {
    var next := Apply(reg, s, Create(c));
    forall d | d in next.clients ensures ClientInv(reg, next, next.clients[d]) {
      assert ClientInv(reg, s, At(s, d));
    }
  }

  lemma ReturnKeeps<O, D>(reg: Registry<O, D>, start: D, s: State<O, D>, c: nat)
    requires Inv(reg, start, s) && Enabled(s, Return(c))
    ensures Inv(reg, start, Apply(reg, s, Return(c)))
  {
    var next := Apply(reg, s, Return(c));
    assert ClientInv(reg, s, s.clients[c]);
    forall d | d in next.clients ensures ClientInv(reg, next, next.clients[d]) {
      if d != c {
        assert ClientInv(reg, s, s.clients[d]);
      }
    }
  }

  // ---------------------------------------------------------------- whole runs

  ghost predicate IsRun<O, D>(reg: Registry<O, D>, start: D, states: seq<State<O, D>>, steps: seq<Step<O>>) {
    && |states| == |steps| + 1 && Init(reg, start, states[0])
    && forall k | 0 <= k < |steps| :: Enabled(states[k], steps[k]) && states[k + 1] == Apply(reg, states[k], steps[k])
  }

  lemma {:induction false} RunKeeps<O(!new), D(!new)>(reg: Registry<O, D>, start: D, states: seq<State<O, D>>, steps: seq<Step<O>>)
    requires Sensible(reg) && IsRun(reg, start, states, steps)
    ensures Inv(reg, start, states[|steps|])
  {
    if steps == [] {
      InitHolds(reg, start, states[0]);
    } else {
      var n := |steps| - 1;
      RunKeeps(reg, start, states[..|steps|], steps[..n]);
      StepKeeps(reg, start, states[n], steps[n]);
    }
  }

  ghost predicate Reachable<O(!new), D(!new)>(reg: Registry<O, D>, start: D, s: State<O, D>) {
    exists states, steps :: IsRun(reg, start, states, steps) && states[|steps|] == s
  }

  lemma ReachableInv<O(!new), D(!new)>(reg: Registry<O, D>, start: D, s: State<O, D>)
    requires Sensible(reg) && Reachable(reg, start, s)
    ensures Inv(reg, start, s)
  {
    var states, steps :| IsRun(reg, start, states, steps) && states[|steps|] == s;
    RunKeeps(reg, start, states, steps);
  }

  lemma ReachableStep<O(!new), D(!new)>(reg: Registry<O, D>, start: D, s: State<O, D>, step: Step<O>)
    requires Reachable(reg, start, s) && Enabled(s, step)
    ensures Reachable(reg, start, Apply(reg, s, step))
  {
    var states, steps :| IsRun(reg, start, states, steps) && states[|steps|] == s;
    var next := Apply(reg, s, step);
    var more, longer := states + [next], steps + [step];
    forall k | 0 <= k < |longer| ensures Enabled(more[k], longer[k]) && more[k + 1] == Apply(reg, more[k], longer[k]) {
      if k < |steps| {
        assert more[k] == states[k] && more[k + 1] == states[k + 1];
      }
    }
    assert IsRun(reg, start, more, longer) && more[|longer|] == next;
  }

  lemma ReachableInit<O(!new), D(!new)>(reg: Registry<O, D>, start: D, s: State<O, D>)
    requires Init(reg, start, s)
    ensures Reachable(reg, start, s)
  {
    assert IsRun(reg, start, [s], []);
  }

  /** Linearizability, in every interleaving of any number of clients: the stored data is what the
      logged operations give when run one after the other, each with the result it reported, and
      every call that reported success or not-found is in the log, once, at a point between its
      invocation and its return.
   */
  lemma Linearizable<O(!new), D(!new)>(reg: Registry<O, D>, start: D, states: seq<State<O, D>>, steps: seq<Step<O>>)
    requires Sensible(reg) && IsRun(reg, start, states, steps)
    ensures
      var s := states[|steps|];
      && Contents(reg, s.stored) == Replay(reg, start, s.log) && Legal(reg, start, s.log)
      && forall h | 0 <= h < |s.history| && s.history[h].result in {Ok, NotFound} ::
           var call := s.history[h];
           exists k | call.since <= k < call.until :: k < |s.log| && s.log[k] == Entry(call.id, call.op, call.result)
  {
    RunKeeps(reg, start, states, steps);
    var s := states[|steps|];
    forall h | 0 <= h < |s.history| && s.history[h].result in {Ok, NotFound}
      ensures var call := s.history[h];
              exists k | call.since <= k < call.until :: k < |s.log| && s.log[k] == Entry(call.id, call.op, call.result)
    {
      var call := s.history[h];
      assert Accounted(s.log, call.id, call.op, call.since, call.until, call.result);
    }
  }

  /** The positions at which the log mentions a call. */
  ghost function Own<O>(log: seq<Entry<O>>, call: nat): set<int> {
    set k | 0 <= k < |log| && log[k].call == call
  }

  lemma OnceInLog<O>(log: seq<Entry<O>>, call: nat, op: O, since: nat, until: nat, result: Outcome)
    requires forall k, l | 0 <= k < l < |log| :: log[k].call != log[l].call
    requires Accounted(log, call, op, since, until, result)
    ensures |Own(log, call)| == if result == Ok || result == NotFound then 1 else 0
    ensures forall k | k in Own(log, call) :: log[k] == Entry(call, op, result)
  {
    if result == Ok || result == NotFound {
      var k :| since <= k < until && k < |log| && log[k] == Entry(call, op, result);
      assert Own(log, call) == {k};
    } else {
      assert Own(log, call) == {};
    }
  }

  /** Exactly-once commits: a call that returned success has exactly one successful entry, one that
      returned not-found has exactly one entry and it wrote nothing, and one that gave up has none.
   */
  lemma ExactlyOnce<O(!new), D(!new)>(reg: Registry<O, D>, start: D, states: seq<State<O, D>>, steps: seq<Step<O>>, h: nat)
    requires Sensible(reg) && IsRun(reg, start, states, steps) && h < |states[|steps|].history|
    ensures
      var s, call := states[|steps|], states[|steps|].history[h];
      && |Own(s.log, call.id)| == (if call.result == Ok || call.result == NotFound then 1 else 0)
      && forall k | k in Own(s.log, call.id) :: s.log[k] == Entry(call.id, call.op, call.result)
  {
    RunKeeps(reg, start, states, steps);
    var s, call := states[|steps|], states[|steps|].history[h];
    OnceInLog(s.log, call.id, call.op, call.since, call.until, call.result);
  }

  /** Calls that do not overlap take effect in the order in which they were made. */
  lemma RealTimeOrder<O(!new), D(!new)>(reg: Registry<O, D>, start: D, states: seq<State<O, D>>, steps: seq<Step<O>>, g: nat, h: nat, k: nat, l: nat)
    requires Sensible(reg) && IsRun(reg, start, states, steps)
    requires g < |states[|steps|].history| && h < |states[|steps|].history|
    requires
      var s := states[|steps|];
      && s.history[g].until <= s.history[h].since && k < |s.log| && l < |s.log|
      && s.log[k].call == s.history[g].id && s.log[l].call == s.history[h].id
    ensures k < l
  {
    RunKeeps(reg, start, states, steps);
    var s := states[|steps|];
    var first, second := s.history[g], s.history[h];
    assert Accounted(s.log, first.id, first.op, first.since, first.until, first.result);
    assert Accounted(s.log, second.id, second.op, second.since, second.until, second.result);
    assert Logged(s.log, first.id) && Logged(s.log, second.id);
  }

  // ---------------------------------------------------------------- progress

  /** An update commits exactly when nobody has written since the client read; otherwise nothing is
      written and the client starts over, or gives up after its fifth attempt.
   */
  lemma UpdateExactly<O(!new), D(!new)>(reg: Registry<O, D>, start: D, s: State<O, D>, c: nat)
    requires Inv(reg, start, s) && At(s, c).Active? && At(s, c).stage.Holding?
    ensures s.stored.Present?
    ensures
      var client, next := At(s, c), Apply(reg, s, Update(c));
      if s.stored.version == client.stage.version then
        && reg.edit(client.op, s.stored.data) == Write(next.stored.data) && next.stored == Present(s.nextVersion, next.stored.data)
        && next.log == s.log + [Entry(client.call, client.op, Ok)] && At(next, c) == client.(stage := Returning(Ok))
      else
        && next.stored == s.stored && next.log == s.log
        && At(next, c) == if client.attempts < 5 then client.(attempts := client.attempts + 1, stage := Getting)
                          else client.(stage := Returning(Conflicted))
  {
    assert ClientInv(reg, s, s.clients[c]);
  }

  /** The one step, other than a failure, that a client in the middle of a call can take. */
  ghost function Forward<O, D>(s: State<O, D>, c: nat): Step<O>
    requires At(s, c).Active?
  {
    match At(s, c).stage
    case Getting => Get(c)
    case Creating => Create(c)
    case Refetching => Refetch(c)
    case Holding(_, _) => Update(c)
    case Returning(_) => Return(c)
  }

  lemma ForwardOnly<O, D>(s: State<O, D>, step: Step<O>)
    requires At(s, step.c).Active? && !step.Fail?
    ensures Enabled(s, step) <==> step == Forward(s, step.c)
  {
  }

  /** At most n steps of one client, up to the end of its call, while nobody else moves and nothing fails. */
  ghost function Undisturbed<O, D>(reg: Registry<O, D>, s: State<O, D>, c: nat, n: nat): State<O, D>
    decreases n
  {
    if n == 0 || At(s, c).Idle? then s else Undisturbed(reg, Apply(reg, s, Forward(s, c)), c, n - 1)
  }

  /** Undisturbed, a call returns from its first attempt: not-found where the operation misses, and success
      with the data it makes of what was stored where it does not.
   */
  lemma UndisturbedReturns<O(!new), D(!new)>(reg: Registry<O, D>, start: D, s: State<O, D>, c: nat, op: O, n: nat)
    requires Sensible(reg) && Inv(reg, start, s) && At(s, c).Idle? && n >= 4
    ensures
      var t := Undisturbed(reg, Apply(reg, s, Start(c, op)), c, n);
      var edited := reg.edit(op, Contents(reg, s.stored));
      && At(t, c).Idle?
      && t.history == s.history + [Call(s.nextCall, op, |s.log|, |t.log|, if edited.Write? then Ok else NotFound)]
      && Contents(reg, t.stored) == if edited.Write? then edited.data else Contents(reg, s.stored)
  {
    var started := Apply(reg, s, Start(c, op));
    var read := Apply(reg, started, Get(c));
    assert Undisturbed(reg, started, c, n) == Undisturbed(reg, read, c, n - 1);
    if At(read, c).stage.Creating? {
      CreatedReturns(reg, read, c, n - 1);
    } else if At(read, c).stage.Holding? {
      HeldReturns(reg, read, c, n - 1);
    } else {
      ReturnReturns(reg, read, c, n - 1);
    }
  }

  lemma CreatedReturns<O, D>(reg: Registry<O, D>, s: State<O, D>, c: nat, n: nat)
    requires At(s, c).Active? && s.stored.Absent? && At(s, c).stage == Creating && n >= 3
    requires reg.edit(At(s, c).op, reg.empty).Write?
    ensures Undisturbed(reg, s, c, n) == Apply(reg, Apply(reg, Apply(reg, s, Create(c)), Update(c)), Return(c))
  {
    HeldReturns(reg, Apply(reg, s, Create(c)), c, n - 1);
  }

  lemma ReturnReturns<O, D>(reg: Registry<O, D>, s: State<O, D>, c: nat, n: nat)
    requires At(s, c).Active? && At(s, c).stage.Returning? && n >= 1
    ensures Undisturbed(reg, s, c, n) == Apply(reg, s, Return(c))
  {
    assert At(Apply(reg, s, Return(c)), c).Idle?;
  }

  lemma HeldReturns<O, D>(reg: Registry<O, D>, s: State<O, D>, c: nat, n: nat)
    requires At(s, c).Active? && s.stored.Present? && n >= 2
    requires At(s, c).stage == Holding(s.stored.version, s.stored.data) && reg.edit(At(s, c).op, s.stored.data).Write?
    ensures Undisturbed(reg, s, c, n) == Apply(reg, Apply(reg, s, Update(c)), Return(c))
  {
    ReturnReturns(reg, Apply(reg, s, Update(c)), c, n - 1);
  }

  /** The commits among the log's entries from `since` on. */
  ghost function Commits<O>(log: seq<Entry<O>>, since: nat): nat {
    if |log| <= since then 0
    else Commits(log[..|log| - 1], since) + if log[|log| - 1].result == Ok then 1 else 0
  }

  lemma CommitsLast<O>(log: seq<Entry<O>>, e: Entry<O>, since: nat)
    requires since <= |log|
    ensures Commits(log + [e], since) == Commits(log, since) + if e.result == Ok then 1 else 0
  {
    assert (log + [e])[..|log|] == log;
  }

  /** Each attempt after the first, and each copy that is out of date, stands for a commit since the call. */
  ghost predicate Overtaken<O, D>(s: State<O, D>, client: Client<O, D>) {
    client.Active? ==>
      && client.attempts <= Commits(s.log, client.since) + 1
      && (client.stage.Holding? && s.stored.Present? && client.stage.version != s.stored.version ==>
            client.attempts <= Commits(s.log, client.since))
      && (client.stage == Returning(Conflicted) ==> 5 <= Commits(s.log, client.since))
  }

  ghost predicate GivenUpOvertaken<O>(log: seq<Entry<O>>, call: Call<O>) {
    call.result == Conflicted ==> call.until <= |log| && 5 <= Commits(log[..call.until], call.since)
  }

  ghost predicate OvertakenInv<O, D>(s: State<O, D>) {
    && (forall c | c in s.clients :: Overtaken(s, s.clients[c]))
    && (forall h | 0 <= h < |s.history| :: GivenUpOvertaken(s.log, s.history[h]))
  }

  /** When a call takes effect, it stands for a commit in everybody else's count. */
  lemma EffectOvertakes<O(!new), D(!new)>(reg: Registry<O, D>, start: D, s: State<O, D>, c: nat, result: Outcome, next: State<O, D>)
    requires Inv(reg, start, s) && OvertakenInv(s) && At(s, c).Active? && result != Conflicted
    requires next.clients == s.clients[c := At(s, c).(stage := Returning(result))] && next.history == s.history
    requires next.log == s.log + [Entry(At(s, c).call, At(s, c).op, result)]
    requires if result == Ok then next.stored.Present? else next.stored == s.stored
    ensures OvertakenInv(next)
  {
    var e := Entry(At(s, c).call, At(s, c).op, result);
    forall d | d in next.clients ensures Overtaken(next, next.clients[d]) {
      var other := s.clients[d];
      assert Overtaken(s, other) && ClientInv(reg, s, other);
      if other.Active? {
        CommitsLast(s.log, e, other.since);
      }
    }
    forall h | 0 <= h < |next.history| ensures GivenUpOvertaken(next.log, next.history[h]) {
      assert GivenUpOvertaken(s.log, s.history[h]);
      assert next.log[..s.history[h].until] == s.log[..s.history[h].until];
    }
  }

  lemma StepKeepsOvertaken<O(!new), D(!new)>(reg: Registry<O, D>, start: D, s: State<O, D>, step: Step<O>)
    requires Sensible(reg) && Inv(reg, start, s) && OvertakenInv(s) && Enabled(s, step)
    ensures OvertakenInv(Apply(reg, s, step))
  {
    var c, next := step.c, Apply(reg, s, step);
    if next.log != s.log {
      EffectOvertakes(reg, start, s, c, At(next, c).stage.result, next);
    } else {
      forall d | d in next.clients ensures Overtaken(next, next.clients[d]) {
        MoveOvertaken(reg, start, s, step, d);
      }
      ReturnOvertaken(reg, s, step);
    }
  }

  lemma MoveOvertaken<O(!new), D(!new)>(reg: Registry<O, D>, start: D, s: State<O, D>, step: Step<O>, d: nat)
    requires Inv(reg, start, s) && OvertakenInv(s) && Enabled(s, step) && Apply(reg, s, step).log == s.log
    ensures Overtaken(Apply(reg, s, step), At(Apply(reg, s, step), d))
  {
    assert Overtaken(s, At(s, d)) && ClientInv(reg, s, At(s, d));
  }

  lemma ReturnOvertaken<O, D>(reg: Registry<O, D>, s: State<O, D>, step: Step<O>)
    requires OvertakenInv(s) && Enabled(s, step) && Apply(reg, s, step).log == s.log
    ensures forall h | 0 <= h < |Apply(reg, s, step).history| :: GivenUpOvertaken(s.log, Apply(reg, s, step).history[h])
  {
    assert s.log[..|s.log|] == s.log;
    assert Overtaken(s, At(s, step.c));
  }

  lemma {:induction false} RunOvertaken<O(!new), D(!new)>(reg: Registry<O, D>, start: D, states: seq<State<O, D>>, steps: seq<Step<O>>)
    requires Sensible(reg) && IsRun(reg, start, states, steps)
    ensures OvertakenInv(states[|steps|])
  {
    if steps != [] {
      var n := |steps| - 1;
      RunKeeps(reg, start, states[..|steps|], steps[..n]);
      RunOvertaken(reg, start, states[..|steps|], steps[..n]);
      StepKeepsOvertaken(reg, start, states[n], steps[n]);
    }
  }

  /** A call gives up only when it was overtaken five times: between its invocation and its return at least
      five operations committed, none of them its own.
   */
  lemma GivesUpOnlyOvertaken<O(!new), D(!new)>(reg: Registry<O, D>, start: D, states: seq<State<O, D>>, steps: seq<Step<O>>, h: nat)
    requires Sensible(reg) && IsRun(reg, start, states, steps)
    requires h < |states[|steps|].history| && states[|steps|].history[h].result == Conflicted
    ensures
      var s, call := states[|steps|], states[|steps|].history[h];
      call.until <= |s.log| && 5 <= Commits(s.log[..call.until], call.since) && Own(s.log, call.id) == {}
  {
    RunOvertaken(reg, start, states, steps);
    RunKeeps(reg, start, states, steps);
    var s, call := states[|steps|], states[|steps|].history[h];
    assert GivenUpOvertaken(s.log, call);
    assert Accounted(s.log, call.id, call.op, call.since, call.until, call.result);
  }

  ghost predicate WritesFor<O, D>(s: State<O, D>, step: Step<O>, call: nat) {
    step.Update? && At(s, step.c).Active? && At(s, step.c).call == call
  }

  /** How often a run tried to write for a call. */
  ghost function Attempts<O, D>(states: seq<State<O, D>>, steps: seq<Step<O>>, call: nat): nat
    requires |states| == |steps| + 1
  {
    if steps == [] then 0
    else
      var n := |steps| - 1;
      Attempts(states[..n + 1], steps[..n], call) + if WritesFor(states[n], steps[n], call) then 1 else 0
  }

  /** The attempts a client counts are the ones made for its call. */
  ghost predicate Counted<O, D>(s: State<O, D>, call: nat, n: nat) {
    && (call >= s.nextCall ==> n == 0)
    && (forall c | c in s.clients && s.clients[c].Active? && s.clients[c].call == call :: CountedFor(s.clients[c], n))
    && (forall h | 0 <= h < |s.history| && s.history[h].id == call :: n <= 5 && (s.history[h].result == Conflicted ==> n == 5))
  }

  ghost predicate CountedFor<O, D>(client: Client<O, D>, n: nat)
    requires client.Active?
  {
    if client.stage.Returning? then n <= 5 && (client.stage.result == Conflicted ==> n == 5)
    else n + 1 == client.attempts <= 5
  }

  lemma StepCounted<O, D>(reg: Registry<O, D>, s: State<O, D>, step: Step<O>, call: nat, n: nat)
    requires CallsDistinct(s) && Counted(s, call, n) && Enabled(s, step)
    requires forall c | c in s.clients && s.clients[c].Active? :: s.clients[c].call < s.nextCall
    ensures Counted(Apply(reg, s, step), call, n + if WritesFor(s, step, call) then 1 else 0)
  {
    var next, c := Apply(reg, s, step), step.c;
    var m := n + if WritesFor(s, step, call) then 1 else 0;
    forall d | d in next.clients && next.clients[d].Active? && next.clients[d].call == call ensures CountedFor(next.clients[d], m) {
      if d != c {
        assert next.clients[d] == s.clients[d];
      }
    }
    forall h | 0 <= h < |next.history| && next.history[h].id == call
      ensures m <= 5 && (next.history[h].result == Conflicted ==> m == 5)
    {
      if h < |s.history| {
        assert next.history[h] == s.history[h];
      }
    }
  }

  lemma {:induction false} RunCounted<O(!new), D(!new)>(reg: Registry<O, D>, start: D, states: seq<State<O, D>>, steps: seq<Step<O>>, call: nat)
    requires Sensible(reg) && IsRun(reg, start, states, steps)
    ensures Counted(states[|steps|], call, Attempts(states, steps, call))
  {
    if steps != [] {
      var n := |steps| - 1;
      RunKeeps(reg, start, states[..|steps|], steps[..n]);
      RunCounted(reg, start, states[..|steps|], steps[..n], call);
      StepCounted(reg, states[n], steps[n], call, Attempts(states[..n + 1], steps[..n], call));
    }
  }

  /** No call tries to write more than five times, and one that gave up tried exactly five times. */
  lemma AtMostFive<O(!new), D(!new)>(reg: Registry<O, D>, start: D, states: seq<State<O, D>>, steps: seq<Step<O>>, h: nat)
    requires Sensible(reg) && IsRun(reg, start, states, steps) && h < |states[|steps|].history|
    ensures
      var call := states[|steps|].history[h];
      Attempts(states, steps, call.id) <= 5 && (call.result == Conflicted ==> Attempts(states, steps, call.id) == 5)
  {
    RunCounted(reg, start, states, steps, states[|steps|].history[h].id);
  }
}
