/** The generated patch is the intended injection: applied in order it yields exactly the injected pod,
    no operation of it fails and none discards anything.
 */
module InjectorPatch {
  import opened Injector
  import opened JsonPatch
  import opened Wrappers

  // ---------------------------------------------------------------- one list

  /** Appending one element through "-". */
  lemma AppendStep(doc: Json, path: string, key: string, items: seq<Json>, value: Json)
    requires Tokens(path) == Some([key]) && doc.Object? && Child(doc, key) == Some(Array(items))
    ensures ApplyOnePreserving(doc, Operation(path + "/-", value)) == Some(WithChild(doc, key, Array(items + [value])))
  {
    TokensAppend(path, "-");
    assert path + "/" + "-" == path + "/-";
    AddInChild(doc, key, ["-"], value);
    assert Add(Array(items), ["-"], value) == Some(Array(items + [value]));
  }

  lemma {:induction false} AppendAll(doc: Json, path: string, key: string, items: seq<Json>, values: seq<Json>)
    requires Tokens(path) == Some([key]) && doc.Object? && Child(doc, key) == Some(Array(items))
    ensures ApplyPreserving(doc, AppendOps(path, values)) == Some(WithChild(doc, key, Array(items + values)))
  {
    if values == [] {
      assert items + values == items;
      WithSameChild(doc, key);
    } else {
      var front, last := values[..|values| - 1], values[|values| - 1];
      AppendAll(doc, path, key, items, front);
      var before := WithChild(doc, key, Array(items + front));
      ApplyPreservingLast(doc, AppendOps(path, front), Operation(path + "/-", last));
      AppendStep(before, path, key, items + front, last);
      Regroup(items, front, last);
      assert front + [last] == values;
      WithChildTwice(doc, key, Array(items + front), Array(items + values));
    }
  }

  /** The operations for a list append the values to it. */
  lemma ListOpsAppend(doc: Json, path: string, key: string, names: seq<string>, values: seq<Json>)
    requires Tokens(path) == Some([key]) && doc.Object? && DecodeNameList(Member(doc, key)) == Some(names)
    ensures ApplyPreserving(doc, ListOps(path, names, values)) == Some(WithMore(doc, key, values))
  {
    var present := Member(doc, key);
    if values != [] {
      if names == [] {
        assert Items(present) + values == values;
        SingleOperation(doc, Operation(path, Array(values)));
      } else {
        AppendAll(doc, path, key, present.items, values);
      }
    }
  }

  function Changed(pass: Pass, c: Json): Json {
    match pass
    case EnvPass(_, desired) => InjectEnv(c, desired)
    case MountPass(_) => InjectNamed(c, "volumeMounts", MOUNT)
  }

  /** The operations of a pass for container `k` change the element `c` as intended. */
  ghost predicate Ready(pass: Pass, c: Json, k: Container) {
    ApplyPreserving(c, ContainerOps(pass, k)) == Some(Changed(pass, c))
  }

  lemma EnvReady(c: Json, k: Container, path: string, desired: seq<EnvVar>)
    requires Tokens(path) == Some(["env"]) && c.Object? && DecodeContainer(c) == Some(k)
    ensures Ready(EnvPass(path, desired), c, k)
  {
    ListOpsAppend(c, path, "env", k.env, EnvVarsJson(MissingVars(k.env, desired)));
  }

  /** Also after the first pass, which leaves the mounts alone. */
  lemma MountReady(c: Json, k: Container, path: string, desired: seq<EnvVar>)
    requires Tokens(path) == Some(["volumeMounts"]) && c.Object? && DecodeContainer(c) == Some(k)
    ensures Ready(MountPass(path), InjectEnv(c, desired), k)
  {
    var c' := InjectEnv(c, desired);
    assert Member(c', "volumeMounts") == Member(c, "volumeMounts");
    ListOpsAppend(c', path, "volumeMounts", k.volumeMounts, UnlessNamed(k.volumeMounts, MOUNT));
  }

  // ---------------------------------------------------------------- the containers of a pod

  function ChangedUpTo(pass: Pass, items: seq<Json>, n: nat): seq<Json> {
    seq(|items|, i requires 0 <= i < |items| => if i < n then Changed(pass, items[i]) else items[i])
  }

  lemma ItemPointer(i: nat)
    ensures Tokens("/" + Decimal(i)) == Some([Decimal(i)]) && ArrayIndex(Decimal(i)) == Some(i)
  {
    DecimalIsIndex(i);
    SingleToken("/" + Decimal(i), Decimal(i));
  }

  lemma PassStep(items: seq<Json>, pass: Pass, k: Container, i: nat)
    requires i < |items| && Ready(pass, items[i], k)
    ensures ApplyPreserving(Array(items), Prefixed("/" + Decimal(i), ContainerOps(pass, k)))
            == Some(Array(items[i := Changed(pass, items[i])]))
  {
    ItemPointer(i);
    LiftPatch(Array(items), "/" + Decimal(i), Decimal(i), ContainerOps(pass, k));
  }

  lemma ChangedStep(pass: Pass, items: seq<Json>, i: nat)
    requires i < |items|
    ensures ChangedUpTo(pass, items, i)[i] == items[i]
    ensures ChangedUpTo(pass, items, i)[i := Changed(pass, items[i])] == ChangedUpTo(pass, items, i + 1)
  {
  }

  lemma RootPassOpsLast(root: string, pass: Pass, containers: seq<Container>, i: nat)
    requires root == "" && i < |containers|
    ensures PassOps(root, pass, containers[..i + 1])
            == PassOps(root, pass, containers[..i]) + Prefixed("/" + Decimal(i), ContainerOps(pass, containers[i]))
  {
    var path := root + "/" + Decimal(i);
    assert path == "/" + Decimal(i);
    PassOpsLast(root, pass, containers, i);
  }

  /** A pass over the first `n` elements of a list, with paths from the list. */
  lemma {:induction false} PassUpTo(items: seq<Json>, root: string, pass: Pass, containers: seq<Container>, n: nat)
    requires root == "" && |containers| == |items| && n <= |containers|
    requires forall i | 0 <= i < n :: Ready(pass, items[i], containers[i])
    ensures ApplyPreserving(Array(items), PassOps(root, pass, containers[..n])) == Some(Array(ChangedUpTo(pass, items, n)))
  {
    if n == 0 {
      assert ChangedUpTo(pass, items, 0) == items;
    } else {
      var i := n - 1;
      PassUpTo(items, root, pass, containers, i);
      ChangedStep(pass, items, i);
      PassStep(ChangedUpTo(pass, items, i), pass, containers[i], i);
      RootPassOpsLast(root, pass, containers, i);
      ApplyPreservingConcat(Array(items), PassOps(root, pass, containers[..i]),
                            Prefixed("/" + Decimal(i), ContainerOps(pass, containers[i])));
    }
  }

  lemma PrefixedTwice(a: string, b: string, ops: seq<Operation>)
    ensures Prefixed(a, Prefixed(b, ops)) == Prefixed(a + b, ops)
  {
    forall i | 0 <= i < |ops| ensures Prefixed(a, Prefixed(b, ops))[i] == Prefixed(a + b, ops)[i] {
      assert a + (b + ops[i].path) == a + b + ops[i].path;
    }
  }

  /** The base path is a prefix of every operation of a pass. */
  lemma {:induction false} PassPrefixed(base: string, path: string, pass: Pass, containers: seq<Container>)
    ensures PassOps(base + path, pass, containers) == Prefixed(base, PassOps(path, pass, containers))
  {
    if containers != [] {
      var n := |containers| - 1;
      PassPrefixed(base, path, pass, containers[..n]);
      PrefixedTwice(base, path + "/" + Decimal(n), ContainerOps(pass, containers[n]));
      assert base + (path + "/" + Decimal(n)) == base + path + "/" + Decimal(n);
    }
  }

  /** What a pass does to one of the spec's lists. */
  function Stage(spec: Json, key: string, pass: Pass): Json {
    if spec.Object? && Member(spec, key).Array? then
      var items := Member(spec, key).items;
      Object(spec.members[key := Array(ChangedUpTo(pass, items, |items|))])
    else spec
  }

  ghost predicate AllReady(pass: Pass, items: seq<Json>, containers: seq<Container>) {
    |containers| == |items| && forall i | 0 <= i < |items| :: Ready(pass, items[i], containers[i])
  }

  lemma StageApplies(spec: Json, key: string, path: string, pass: Pass, containers: seq<Container>)
    requires Tokens(path) == Some([key]) && AllReady(pass, Items(Member(spec, key)), containers)
    ensures ApplyPreserving(spec, PassOps(path, pass, containers)) == Some(Stage(spec, key, pass))
  {
    var items, root := Items(Member(spec, key)), "";
    if spec.Object? && Member(spec, key).Array? {
      PassUpTo(items, root, pass, containers, |containers|);
      assert containers[..|containers|] == containers;
      assert path + root == path;
      PassPrefixed(path, root, pass, containers);
      LiftPatch(spec, path, key, PassOps(root, pass, containers));
    }
  }

  // ---------------------------------------------------------------- the whole pod

  ghost predicate Good(p: Paths) {
    && Tokens(p.containers) == Some(["containers"]) && Tokens(p.initContainers) == Some(["initContainers"])
    && Tokens(p.volumes) == Some(["volumes"]) && Tokens(p.env) == Some(["env"]) && Tokens(p.volumeMounts) == Some(["volumeMounts"])
  }

  lemma {:induction false} AppendOpsPrefixed(base: string, path: string, values: seq<Json>)
    ensures AppendOps(base + path, values) == Prefixed(base, AppendOps(path, values))
  {
    if values != [] {
      AppendOpsPrefixed(base, path, values[..|values| - 1]);
      assert base + (path + "/-") == base + path + "/-";
    }
  }

  lemma ListOpsPrefixed(base: string, path: string, names: seq<string>, values: seq<Json>)
    ensures ListOps(base + path, names, values) == Prefixed(base, ListOps(path, names, values))
  {
    AppendOpsPrefixed(base, path, values);
  }

  function From(base: string, p: Paths): Paths {
    p.(containers := base + p.containers, initContainers := base + p.initContainers, volumes := base + p.volumes)
  }

  lemma BothOpsPrefixed(base: string, p: Paths, pass: Pass, pod: Pod)
    ensures BothOps(From(base, p), pass, pod) == Prefixed(base, BothOps(p, pass, pod))
  {
    PassPrefixed(base, p.containers, pass, pod.containers);
    PassPrefixed(base, p.initContainers, pass, pod.initContainers);
    PrefixedConcat(base, PassOps(p.containers, pass, pod.containers), PassOps(p.initContainers, pass, pod.initContainers));
  }

  lemma VolumeOpsPrefixed(base: string, p: Paths, pod: Pod)
    ensures VolumeOps(From(base, p), pod) == Prefixed(base, VolumeOps(p, pod))
  {
    var ops := ListOps(p.volumes, pod.volumes, UnlessNamed(pod.volumes, VOLUME));
    ListOpsPrefixed(base, p.volumes, pod.volumes, UnlessNamed(pod.volumes, VOLUME));
    BothOpsPrefixed(base, p, MountPass(p.volumeMounts), pod);
    PrefixedConcat(base, ops, BothOps(p, MountPass(p.volumeMounts), pod));
  }

  lemma SpecOpsPrefixed(base: string, p: Paths, pod: Pod, opts: Options)
    ensures SpecOps(From(base, p), pod, opts) == Prefixed(base, SpecOps(p, pod, opts))
  {
    BothOpsPrefixed(base, p, EnvPass(p.env, DesiredEnvVars(opts)), pod);
    VolumeOpsPrefixed(base, p, pod);
    PrefixedConcat(base, EnvOps(p, pod, DesiredEnvVars(opts)), if opts.injectPodIdentity then VolumeOps(p, pod) else []);
  }

  /** The pod's part of the spec, as decoded. */
  ghost predicate Decodes(spec: Json, pod: Pod) {
    && DecodeNameList(Member(spec, "volumes")) == Some(pod.volumes)
    && DecodeContainerList(Member(spec, "containers")) == Some(pod.containers)
    && DecodeContainerList(Member(spec, "initContainers")) == Some(pod.initContainers)
  }

  lemma {:induction false} DecodeContainersAt(items: seq<Json>, i: nat)
    requires DecodeContainers(items).Some? && i < |items|
    ensures DecodeContainer(items[i]) == Some(DecodeContainers(items).value[i])
  {
    if i < |items| - 1 {
      DecodeContainersAt(items[..|items| - 1], i);
    }
  }

  lemma ListDecodes(items: seq<Json>, containers: seq<Container>, i: nat)
    requires DecodeContainers(items) == Some(containers) && Null !in items && i < |items|
    ensures items[i].Object? && DecodeContainer(items[i]) == Some(containers[i])
  {
    DecodeContainersAt(items, i);
    assert items[i] in items;
  }

  /** The first pass is ready for a decoded list without nulls. */
  lemma EnvListReady(items: seq<Json>, containers: seq<Container>, path: string, desired: seq<EnvVar>)
    requires Tokens(path) == Some(["env"]) && DecodeContainers(items) == Some(containers) && Null !in items
    ensures AllReady(EnvPass(path, desired), items, containers)
  {
    forall i | 0 <= i < |items| ensures Ready(EnvPass(path, desired), items[i], containers[i]) {
      ListDecodes(items, containers, i);
      EnvReady(items[i], containers[i], path, desired);
    }
  }

  function WithEnv(items: seq<Json>, desired: seq<EnvVar>): seq<Json> {
    seq(|items|, i requires 0 <= i < |items| => InjectEnv(items[i], desired))
  }

  /** The second pass is ready for the list the first one leaves. */
  lemma MountListReady(items: seq<Json>, containers: seq<Container>, path: string, desired: seq<EnvVar>)
    requires Tokens(path) == Some(["volumeMounts"]) && DecodeContainers(items) == Some(containers) && Null !in items
    ensures AllReady(MountPass(path), WithEnv(items, desired), containers)
  {
    forall i | 0 <= i < |items| ensures Ready(MountPass(path), WithEnv(items, desired)[i], containers[i]) {
      ListDecodes(items, containers, i);
      MountReady(items[i], containers[i], path, desired);
    }
  }

  lemma StageMembers(spec: Json, key: string, pass: Pass)
    requires spec.Object?
    ensures
      var staged := Stage(spec, key, pass);
      && staged.Object? && staged.members.Keys == spec.members.Keys
      && (forall k | k in spec.members && k != key :: staged.members[k] == spec.members[k])
      && Items(Member(staged, key)) == ChangedUpTo(pass, Items(Member(spec, key)), |Items(Member(spec, key))|)
      && Member(staged, key).Array? == Member(spec, key).Array?
  {
    if Member(spec, key).Array? {
      assert key in spec.members;
    }
  }

  /** What a pass does to both lists. */
  function BothStages(spec: Json, pass: Pass): Json {
    Stage(Stage(spec, "containers", pass), "initContainers", pass)
  }

  lemma BothStagesApply(spec: Json, p: Paths, pass: Pass, pod: Pod)
    requires Good(p) && spec.Object?
    requires AllReady(pass, Items(Member(spec, "containers")), pod.containers)
    requires AllReady(pass, Items(Member(spec, "initContainers")), pod.initContainers)
    ensures ApplyPreserving(spec, BothOps(p, pass, pod)) == Some(BothStages(spec, pass))
  {
    StageMembers(spec, "containers", pass);
    StageApplies(spec, "containers", p.containers, pass, pod.containers);
    StageApplies(Stage(spec, "containers", pass), "initContainers", p.initContainers, pass, pod.initContainers);
    ApplyPreservingConcat(spec, PassOps(p.containers, pass, pod.containers), PassOps(p.initContainers, pass, pod.initContainers));
  }

  /** The spec after the pass over the variables. */
  function EnvStages(spec: Json, p: Paths, desired: seq<EnvVar>): Json {
    BothStages(spec, EnvPass(p.env, desired))
  }

  function MountStages(spec: Json, p: Paths): Json {
    BothStages(InjectNamed(spec, "volumes", VOLUME), MountPass(p.volumeMounts))
  }

  lemma AllWithEnv(path: string, items: seq<Json>, desired: seq<EnvVar>)
    ensures ChangedUpTo(EnvPass(path, desired), items, |items|) == WithEnv(items, desired)
  {
  }

  lemma EnvStagesMembers(spec: Json, p: Paths, desired: seq<EnvVar>)
    requires spec.Object?
    ensures
      var staged := EnvStages(spec, p, desired);
      && staged.Object? && staged.members.Keys == spec.members.Keys
      && (forall k | k in spec.members && k != "containers" && k != "initContainers" :: staged.members[k] == spec.members[k])
      && Items(Member(staged, "containers")) == WithEnv(Items(Member(spec, "containers")), desired)
      && Items(Member(staged, "initContainers")) == WithEnv(Items(Member(spec, "initContainers")), desired)
      && Member(staged, "containers").Array? == Member(spec, "containers").Array?
      && Member(staged, "initContainers").Array? == Member(spec, "initContainers").Array?
  {
    var env := EnvPass(p.env, desired);
    StageMembers(spec, "containers", env);
    StageMembers(Stage(spec, "containers", env), "initContainers", env);
    AllWithEnv(p.env, Items(Member(spec, "containers")), desired);
    AllWithEnv(p.env, Items(Member(spec, "initContainers")), desired);
  }

  lemma EnvStagesApply(spec: Json, p: Paths, pod: Pod, desired: seq<EnvVar>)
    requires Good(p) && spec.Object? && Decodes(spec, pod)
    requires Null !in Items(Member(spec, "containers")) && Null !in Items(Member(spec, "initContainers"))
    ensures ApplyPreserving(spec, EnvOps(p, pod, desired)) == Some(EnvStages(spec, p, desired))
  {
    EnvListReady(Items(Member(spec, "containers")), pod.containers, p.env, desired);
    EnvListReady(Items(Member(spec, "initContainers")), pod.initContainers, p.env, desired);
    BothStagesApply(spec, p, EnvPass(p.env, desired), pod);
  }

  lemma InjectNamedMembers(doc: Json, key: string, element: Json)
    requires doc.Object?
    ensures
      var injected := InjectNamed(doc, key, element);
      injected.Object? && forall k | k != key :: (k in injected.members <==> k in doc.members) && Member(injected, k) == Member(doc, k)
  {
  }

  /** What the volume pass leaves for the mount pass. */
  lemma VolumeStage(spec: Json, p: Paths, pod: Pod, desired: seq<EnvVar>)
    requires Good(p) && spec.Object? && Decodes(spec, pod)
    requires Null !in Items(Member(spec, "containers")) && Null !in Items(Member(spec, "initContainers"))
    ensures
      var withEnv := EnvStages(spec, p, desired);
      var withVolume := InjectNamed(withEnv, "volumes", VOLUME);
      && withVolume.Object?
      && ApplyPreserving(withEnv, ListOps(p.volumes, pod.volumes, UnlessNamed(pod.volumes, VOLUME))) == Some(withVolume)
      && AllReady(MountPass(p.volumeMounts), Items(Member(withVolume, "containers")), pod.containers)
      && AllReady(MountPass(p.volumeMounts), Items(Member(withVolume, "initContainers")), pod.initContainers)
  {
    var withEnv := EnvStages(spec, p, desired);
    EnvStagesMembers(spec, p, desired);
    InjectNamedMembers(withEnv, "volumes", VOLUME);
    MountListReady(Items(Member(spec, "containers")), pod.containers, p.volumeMounts, desired);
    MountListReady(Items(Member(spec, "initContainers")), pod.initContainers, p.volumeMounts, desired);
    ListOpsAppend(withEnv, p.volumes, "volumes", pod.volumes, UnlessNamed(pod.volumes, VOLUME));
  }

  lemma MountStagesApply(spec: Json, p: Paths, pod: Pod, desired: seq<EnvVar>)
    requires Good(p) && spec.Object? && Decodes(spec, pod)
    requires Null !in Items(Member(spec, "containers")) && Null !in Items(Member(spec, "initContainers"))
    ensures ApplyPreserving(EnvStages(spec, p, desired), VolumeOps(p, pod)) == Some(MountStages(EnvStages(spec, p, desired), p))
  {
    var withEnv := EnvStages(spec, p, desired);
    VolumeStage(spec, p, pod, desired);
    BothStagesApply(InjectNamed(withEnv, "volumes", VOLUME), p, MountPass(p.volumeMounts), pod);
    ApplyPreservingConcat(withEnv, ListOps(p.volumes, pod.volumes, UnlessNamed(pod.volumes, VOLUME)),
                          BothOps(p, MountPass(p.volumeMounts), pod));
  }

  // ---------------------------------------------------------------- the passes are the injection

  lemma MembersEqual(a: Json, b: Json)
    requires a.Object? && b.Object? && a.members.Keys == b.members.Keys
    requires forall k | k in a.members :: a.members[k] == b.members[k]
    ensures a == b
  {
    assert a.members == b.members;
  }

  lemma InjectedMembers(spec: Json, opts: Options)
    requires spec.Object?
    ensures
      var injected := InjectContainers(InjectContainers(spec, "containers", opts), "initContainers", opts);
      && injected.Object? && injected.members.Keys == spec.members.Keys
      && (forall k | k in spec.members && k != "containers" && k != "initContainers" :: injected.members[k] == spec.members[k])
      && (forall k | k in spec.members && (k == "containers" || k == "initContainers") :: injected.members[k] ==
            if spec.members[k].Array? then Array(InjectAll(spec.members[k].items, opts)) else spec.members[k])
  {
  }

  lemma BothPasses(path: string, items: seq<Json>, opts: Options)
    ensures !opts.injectPodIdentity ==> WithEnv(items, DesiredEnvVars(opts)) == InjectAll(items, opts)
    ensures opts.injectPodIdentity ==>
              ChangedUpTo(MountPass(path), WithEnv(items, DesiredEnvVars(opts)), |items|) == InjectAll(items, opts)
  {
  }

  lemma EnvStagesInject(spec: Json, p: Paths, opts: Options)
    requires spec.Object? && !opts.injectPodIdentity
    ensures EnvStages(spec, p, DesiredEnvVars(opts)) == InjectSpec(spec, opts)
  {
    EnvStagesMembers(spec, p, DesiredEnvVars(opts));
    InjectedMembers(spec, opts);
    BothPasses(p.volumeMounts, Items(Member(spec, "containers")), opts);
    BothPasses(p.volumeMounts, Items(Member(spec, "initContainers")), opts);
    MembersEqual(EnvStages(spec, p, DesiredEnvVars(opts)), InjectSpec(spec, opts));
  }

  lemma MountStagesMembers(spec: Json, p: Paths)
    requires spec.Object?
    ensures
      var mount, staged, withVolume := MountPass(p.volumeMounts), MountStages(spec, p), InjectNamed(spec, "volumes", VOLUME);
      && staged.Object? && withVolume.Object? && staged.members.Keys == withVolume.members.Keys
      && (forall k | k in staged.members && k != "containers" && k != "initContainers" :: staged.members[k] == withVolume.members[k])
      && (forall k | k in staged.members && (k == "containers" || k == "initContainers") ::
            k in spec.members && staged.members[k] ==
            if spec.members[k].Array? then Array(ChangedUpTo(mount, spec.members[k].items, |spec.members[k].items|)) else spec.members[k])
  {
    var mount, withVolume := MountPass(p.volumeMounts), InjectNamed(spec, "volumes", VOLUME);
    InjectNamedMembers(spec, "volumes", VOLUME);
    StageMembers(withVolume, "containers", mount);
    StageMembers(Stage(withVolume, "containers", mount), "initContainers", mount);
  }

  /** What is added depends on the one member only. */
  lemma SameInjected(a: Json, b: Json, key: string, element: Json)
    requires a.Object? && b.Object? && a.members.Keys == b.members.Keys && (key in a.members ==> a.members[key] == b.members[key])
    ensures
      var x, y := InjectNamed(a, key, element), InjectNamed(b, key, element);
      && x.Object? && y.Object? && x.members.Keys == y.members.Keys
      && (key in x.members ==> x.members[key] == y.members[key])
      && (forall k | k in x.members && k != key :: x.members[k] == a.members[k] && y.members[k] == b.members[k])
  {
  }

  lemma ListsInjected(spec: Json, p: Paths, opts: Options, k: string)
    requires spec.Object? && opts.injectPodIdentity && k in spec.members && (k == "containers" || k == "initContainers")
    ensures
      var staged := MountStages(EnvStages(spec, p, DesiredEnvVars(opts)), p);
      && staged.Object? && k in staged.members
      && staged.members[k] == if spec.members[k].Array? then Array(InjectAll(spec.members[k].items, opts)) else spec.members[k]
  {
    var withEnv := EnvStages(spec, p, DesiredEnvVars(opts));
    EnvStagesMembers(spec, p, DesiredEnvVars(opts));
    EnvStagesOfKey(spec, p, DesiredEnvVars(opts), k);
    MountStagesMembers(withEnv, p);
    BothPasses(p.volumeMounts, Items(spec.members[k]), opts);
  }

  lemma EnvStagesOfKey(spec: Json, p: Paths, desired: seq<EnvVar>, k: string)
    requires spec.Object? && k in spec.members && (k == "containers" || k == "initContainers")
    ensures
      var staged := EnvStages(spec, p, desired);
      && staged.Object? && k in staged.members
      && staged.members[k] == if spec.members[k].Array? then Array(WithEnv(spec.members[k].items, desired)) else spec.members[k]
  {
    AllWithEnv(p.env, Items(spec.members[k]), desired);
  }

  lemma StagedKeys(spec: Json, p: Paths, opts: Options)
    requires spec.Object? && opts.injectPodIdentity
    ensures
      var staged, injected := MountStages(EnvStages(spec, p, DesiredEnvVars(opts)), p), InjectSpec(spec, opts);
      && staged.Object? && injected.Object? && staged.members.Keys == injected.members.Keys
      && (forall k | k in staged.members && k != "containers" && k != "initContainers" :: staged.members[k] == injected.members[k])
      && (forall k | k in staged.members && (k == "containers" || k == "initContainers") ::
            k in spec.members && injected.members[k] ==
            if spec.members[k].Array? then Array(InjectAll(spec.members[k].items, opts)) else spec.members[k])
  {
    var withEnv := EnvStages(spec, p, DesiredEnvVars(opts));
    var injected := InjectContainers(InjectContainers(spec, "containers", opts), "initContainers", opts);
    EnvStagesMembers(spec, p, DesiredEnvVars(opts));
    InjectedMembers(spec, opts);
    MountStagesMembers(withEnv, p);
    SameInjected(withEnv, injected, "volumes", VOLUME);
  }

  /** Mounting after adding the volume or before makes no difference. */
  lemma MountStagesInject(spec: Json, p: Paths, opts: Options)
    requires spec.Object? && opts.injectPodIdentity
    ensures MountStages(EnvStages(spec, p, DesiredEnvVars(opts)), p) == InjectSpec(spec, opts)
  {
    var staged := MountStages(EnvStages(spec, p, DesiredEnvVars(opts)), p);
    StagedKeys(spec, p, opts);
    forall k | k in staged.members ensures staged.members[k] == InjectSpec(spec, opts).members[k] {
      if k == "containers" || k == "initContainers" {
        ListsInjected(spec, p, opts, k);
      }
    }
    MembersEqual(staged, InjectSpec(spec, opts));
  }

  lemma SpecApplies(spec: Json, p: Paths, pod: Pod, opts: Options)
    requires Good(p) && spec.Object? && Decodes(spec, pod)
    requires Null !in Items(Member(spec, "containers")) && Null !in Items(Member(spec, "initContainers"))
    ensures ApplyPreserving(spec, SpecOps(p, pod, opts)) == Some(InjectSpec(spec, opts))
  {
    var env := EnvOps(p, pod, DesiredEnvVars(opts));
    EnvStagesApply(spec, p, pod, DesiredEnvVars(opts));
    if opts.injectPodIdentity {
      MountStagesInject(spec, p, opts);
      MountStagesApply(spec, p, pod, DesiredEnvVars(opts));
      ApplyPreservingConcat(spec, env, VolumeOps(p, pod));
    } else {
      EnvStagesInject(spec, p, opts);
      assert env + [] == env;
    }
  }

  lemma ContainersPointer()
    ensures Tokens("/containers") == Some(["containers"])
  {
    assert Plain("containers");
    assert "/containers" == "/" + "containers";
    SingleToken("/containers", "containers");
  }

  lemma InitContainersPointer()
    ensures Tokens("/initContainers") == Some(["initContainers"])
  {
    assert Plain("initContainers");
    assert "/initContainers" == "/" + "initContainers";
    SingleToken("/initContainers", "initContainers");
  }

  lemma VolumesPointer()
    ensures Tokens("/volumes") == Some(["volumes"])
  {
    assert Plain("volumes");
    assert "/volumes" == "/" + "volumes";
    SingleToken("/volumes", "volumes");
  }

  lemma EnvPointer()
    ensures Tokens("/env") == Some(["env"])
  {
    assert Plain("env");
    assert "/env" == "/" + "env";
    SingleToken("/env", "env");
  }

  lemma VolumeMountsPointer()
    ensures Tokens("/volumeMounts") == Some(["volumeMounts"])
  {
    assert Plain("volumeMounts");
    assert "/volumeMounts" == "/" + "volumeMounts";
    SingleToken("/volumeMounts", "volumeMounts");
  }

  lemma SpecPointer()
    ensures Tokens("/spec") == Some(["spec"])
  {
    assert Plain("spec");
    assert "/spec" == "/" + "spec";
    SingleToken("/spec", "spec");
  }

  lemma SpecPathsGood()
    ensures Good(SPEC_PATHS)
  {
    ContainersPointer();
    InitContainersPointer();
    VolumesPointer();
    EnvPointer();
    VolumeMountsPointer();
  }

  lemma ContainersPath()
    ensures "/spec" + SPEC_PATHS.containers == POD_PATHS.containers
  {
  }

  lemma InitContainersPath()
    ensures "/spec" + SPEC_PATHS.initContainers == POD_PATHS.initContainers
  {
  }

  lemma PodPaths()
    ensures From("/spec", SPEC_PATHS) == POD_PATHS
  {
    ContainersPath();
    InitContainersPath();
  }

  /** The elements of a list of the spec. */
  function ItemsOf(doc: Json, key: string): seq<Json> {
    Items(Member(Member(doc, "spec"), key))
  }

  /** The API server's pods have a spec, and no null among its containers. */
  predicate Patchable(doc: Json, opts: Options) {
    !Selected(opts) ||
    (&& (opts.injectPodIdentity ==> Member(doc, "spec").Object?)
     && Null !in ItemsOf(doc, "containers") && Null !in ItemsOf(doc, "initContainers"))
  }

  lemma NoSpecNoOps(doc: Json, pod: Pod, opts: Options)
    requires DecodePod(doc) == Some(pod) && !Member(doc, "spec").Object? && !opts.injectPodIdentity
    ensures InjectionOps(pod, opts) == [] && Inject(doc, opts) == doc
  {
    var spec := Member(doc, "spec");
    assert pod == Pod([], [], []);
    if Selected(opts) && doc.Object? && "spec" in doc.members {
      assert doc.members["spec" := spec] == doc.members;
    }
  }

  /** From the spec to the document. */
  lemma PodApplies(doc: Json, base: string, p: Paths, pod: Pod, opts: Options)
    requires Tokens(base) == Some(["spec"]) && Good(p)
    requires doc.Object? && Member(doc, "spec").Object? && Decodes(Member(doc, "spec"), pod)
    requires Null !in ItemsOf(doc, "containers") && Null !in ItemsOf(doc, "initContainers")
    ensures ApplyPreserving(doc, SpecOps(From(base, p), pod, opts))
            == Some(Object(doc.members["spec" := InjectSpec(doc.members["spec"], opts)]))
  {
    SpecApplies(doc.members["spec"], p, pod, opts);
    SpecOpsPrefixed(base, p, pod, opts);
    LiftPatch(doc, base, "spec", SpecOps(p, pod, opts));
  }

  /** Patch correctness: the operations, applied in order, give exactly the injected pod, none fails, and
      none discards anything.
   */
  lemma PatchInjects(doc: Json, opts: Options)
    requires DecodePod(doc).Some? && Patchable(doc, opts)
    ensures
      var ops := InjectionOps(DecodePod(doc).value, opts);
      && ApplyPatch(doc, ops) == Some(Inject(doc, opts))
      && forall k: nat | k < |ops| :: PreservesAt(doc, ops, k)
  {
    var pod, spec := DecodePod(doc).value, Member(doc, "spec");
    var ops := InjectionOps(pod, opts);
    if !Selected(opts) {
    } else if spec.Object? {
      SpecPathsGood();
      SpecPointer();
      PodPaths();
      PodApplies(doc, "/spec", SPEC_PATHS, pod, opts);
      PreservingMeans(doc, ops);
    } else {
      NoSpecNoOps(doc, pod, opts);
    }
  }
}
