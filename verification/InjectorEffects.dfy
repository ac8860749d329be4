/** Which pods the patch fails on, what it adds to the others, and the webhook's answer. */
module InjectorEffects {
  import opened Injector
  import opened InjectorPatch
  import opened JsonPatch
  import opened Sequences
  import opened Wrappers

  // ---------------------------------------------------------------- pods the patch fails on

  lemma {:induction false} FirstNull(items: seq<Json>) returns (i: nat)
    requires Null in items
    ensures i < |items| && items[i].Null? && Null !in items[..i]
  {
    i := 0;
    while items[i] != Null
      invariant i < |items| && Null !in items[..i] && Null in items[i..]
      decreases |items| - i
    {
      i := i + 1;
    }
  }

  lemma {:induction false} PassOpsSplit(base: string, pass: Pass, containers: seq<Container>, n: nat) returns (rest: seq<Operation>)
    requires n <= |containers|
    ensures PassOps(base, pass, containers) == PassOps(base, pass, containers[..n]) + rest
  {
    if n == |containers| {
      rest := [];
      assert containers[..n] == containers;
    } else {
      var i := |containers| - 1;
      var front := PassOpsSplit(base, pass, containers[..i], n);
      assert containers[..i][..n] == containers[..n];
      var last := Prefixed(base + "/" + Decimal(i), ContainerOps(pass, containers[i]));
      rest := front + last;
      Regrouped(PassOps(base, pass, containers[..n]), front, last);
    }
  }

  lemma {:induction false} MissingOfNone(desired: seq<EnvVar>)
    ensures MissingVars([], desired) == desired
  {
    if desired != [] {
      MissingOfNone(desired[..|desired| - 1]);
    }
  }

  /** A null element decodes as a container without variables, and adding to it fails. */
  lemma NullFails(k: Container, path: string, desired: seq<EnvVar>)
    requires Tokens(path) == Some(["env"]) && DecodeContainer(Null) == Some(k) && desired != []
    ensures FailsAt(Null, ContainerOps(EnvPass(path, desired), k), 0)
  {
    MissingOfNone(desired);
    var op := Operation(path, Array(EnvVarsJson(desired)));
    assert ContainerOps(EnvPass(path, desired), k) == [op];
    assert Add(Null, ["env"], op.value).None?;
  }

  lemma UpToNull(items: seq<Json>, root: string, path: string, desired: seq<EnvVar>, containers: seq<Container>, i: nat)
    requires root == "" && Tokens(path) == Some(["env"])
    requires DecodeContainers(items) == Some(containers) && i <= |items| && Null !in items[..i]
    ensures ApplyPreserving(Array(items), PassOps(root, EnvPass(path, desired), containers[..i]))
            == Some(Array(ChangedUpTo(EnvPass(path, desired), items, i)))
  {
    forall j | 0 <= j < i ensures Ready(EnvPass(path, desired), items[j], containers[j]) {
      assert items[..i][j] == items[j];
      DecodeContainersAt(items, j);
      EnvReady(items[j], containers[j], path, desired);
    }
    PassUpTo(items, root, EnvPass(path, desired), containers, i);
  }

  lemma NullItemFails(items: seq<Json>, root: string, path: string, desired: seq<EnvVar>, containers: seq<Container>) returns (n: nat)
    requires root == "" && Tokens(path) == Some(["env"]) && desired != []
    requires DecodeContainers(items) == Some(containers) && Null in items
    ensures FailsAt(Array(items), PassOps(root, EnvPass(path, desired), containers), n)
  {
    var pass := EnvPass(path, desired);
    var i := FirstNull(items);
    UpToNull(items, root, path, desired, containers, i);
    DecodeContainersAt(items, i);
    NullFails(containers[i], path, desired);
    NullStepFails(ChangedUpTo(pass, items, i), pass, containers[i], i);
    RootPassOpsLast(root, pass, containers, i);
    var before, ops := PassOps(root, pass, containers[..i]), Prefixed("/" + Decimal(i), ContainerOps(pass, containers[i]));
    FailsAfter(Array(items), before, ops, 0);
    n := |before|;
    var rest := PassOpsSplit(root, pass, containers, i + 1);
    FailsInPrefix(Array(items), before + ops, rest, n);
  }

  lemma NullStepFails(items: seq<Json>, pass: Pass, k: Container, i: nat)
    requires i < |items| && FailsAt(items[i], ContainerOps(pass, k), 0)
    ensures FailsAt(Array(items), Prefixed("/" + Decimal(i), ContainerOps(pass, k)), 0)
  {
    ItemPointer(i);
    LiftFailure(Array(items), "/" + Decimal(i), Decimal(i), ContainerOps(pass, k), 0);
  }

  lemma NullListFails(spec: Json, key: string, list: string, path: string, desired: seq<EnvVar>, containers: seq<Container>) returns (n: nat)
    requires Tokens(list) == Some([key]) && Tokens(path) == Some(["env"]) && desired != []
    requires spec.Object? && DecodeContainerList(Member(spec, key)) == Some(containers) && Null in Items(Member(spec, key))
    ensures FailsAt(spec, PassOps(list, EnvPass(path, desired), containers), n)
  {
    var root := "";
    n := NullItemFails(Items(Member(spec, key)), root, path, desired, containers);
    assert list + root == list;
    PassPrefixed(list, root, EnvPass(path, desired), containers);
    LiftFailure(spec, list, key, PassOps(root, EnvPass(path, desired), containers), n);
  }

  lemma EnvOpsFail(spec: Json, p: Paths, pod: Pod, desired: seq<EnvVar>) returns (n: nat)
    requires Good(p) && desired != [] && spec.Object? && Decodes(spec, pod)
    requires Null in Items(Member(spec, "containers")) || Null in Items(Member(spec, "initContainers"))
    ensures FailsAt(spec, EnvOps(p, pod, desired), n)
  {
    if Null in Items(Member(spec, "containers")) {
      n := ContainersFail(spec, p, pod, desired);
    } else {
      n := InitContainersFail(spec, p, pod, desired);
    }
  }

  lemma ContainersFail(spec: Json, p: Paths, pod: Pod, desired: seq<EnvVar>) returns (n: nat)
    requires Good(p) && desired != [] && spec.Object? && Decodes(spec, pod)
    requires Null in Items(Member(spec, "containers"))
    ensures FailsAt(spec, EnvOps(p, pod, desired), n)
  {
    var env := EnvPass(p.env, desired);
    n := NullListFails(spec, "containers", p.containers, p.env, desired, pod.containers);
    FailsInPrefix(spec, PassOps(p.containers, env, pod.containers), PassOps(p.initContainers, env, pod.initContainers), n);
  }

  lemma InitContainersFail(spec: Json, p: Paths, pod: Pod, desired: seq<EnvVar>) returns (n: nat)
    requires Good(p) && desired != [] && spec.Object? && Decodes(spec, pod)
    requires Null !in Items(Member(spec, "containers")) && Null in Items(Member(spec, "initContainers"))
    ensures FailsAt(spec, EnvOps(p, pod, desired), n)
  {
    var env := EnvPass(p.env, desired);
    var first := PassOps(p.containers, env, pod.containers);
    EnvListReady(Items(Member(spec, "containers")), pod.containers, p.env, desired);
    StageApplies(spec, "containers", p.containers, env, pod.containers);
    StageMembers(spec, "containers", env);
    var m := NullListFails(Stage(spec, "containers", env), "initContainers", p.initContainers, p.env, desired, pod.initContainers);
    FailsAfter(spec, first, PassOps(p.initContainers, env, pod.initContainers), m);
    n := |first| + m;
  }

  lemma SpecFails(spec: Json, p: Paths, pod: Pod, opts: Options) returns (n: nat)
    requires Good(p) && Selected(opts) && spec.Object? && Decodes(spec, pod)
    requires Null in Items(Member(spec, "containers")) || Null in Items(Member(spec, "initContainers"))
    ensures FailsAt(spec, SpecOps(p, pod, opts), n)
  {
    n := EnvOpsFail(spec, p, pod, DesiredEnvVars(opts));
    FailsInPrefix(spec, EnvOps(p, pod, DesiredEnvVars(opts)), if opts.injectPodIdentity then VolumeOps(p, pod) else [], n);
  }

  lemma NoSpecFails(doc: Json, op: Operation)
    requires IsStruct(doc) && Member(doc, "spec").Null? && Tokens(op.path) == Some(["spec", "volumes"])
    ensures ApplyPatch(doc, [op]).None?
  {
    var tokens := Tokens(op.path).value;
    assert Add(Null, tokens[1..], op.value).None?;
    assert Add(doc, tokens, op.value).None?;
    FailureSticks(doc, [], op, []);
    assert [] + [op] + [] == [op];
  }

  lemma NoContainersOps(p: Paths, opts: Options)
    requires opts.injectPodIdentity
    ensures SpecOps(p, Pod([], [], []), opts) == [Operation(p.volumes, Array([VOLUME]))]
  {
  }

  lemma VolumesPath()
    ensures Tokens("/spec/volumes") == Some(["spec", "volumes"])
  {
    SpecPointer();
    VolumesPointer();
    PodPaths();
    TokensConcat("/spec", "/volumes");
    assert ["spec"] + ["volumes"] == ["spec", "volumes"];
  }

  lemma PodFails(doc: Json, base: string, p: Paths, pod: Pod, opts: Options)
    requires Tokens(base) == Some(["spec"]) && Good(p) && Selected(opts)
    requires doc.Object? && Member(doc, "spec").Object? && Decodes(Member(doc, "spec"), pod)
    requires Null in ItemsOf(doc, "containers") || Null in ItemsOf(doc, "initContainers")
    ensures ApplyPatch(doc, SpecOps(From(base, p), pod, opts)).None?
  {
    var n := SpecFails(Member(doc, "spec"), p, pod, opts);
    LiftFailure(doc, base, "spec", SpecOps(p, pod, opts), n);
    SpecOpsPrefixed(base, p, pod, opts);
    FailsAtMeans(doc, SpecOps(From(base, p), pod, opts), n);
  }

  /** Exactly the pods with a spec and without null containers get a patch that applies. */
  lemma PatchAppliesExactly(doc: Json, opts: Options)
    requires DecodePod(doc).Some?
    ensures ApplyPatch(doc, InjectionOps(DecodePod(doc).value, opts)).Some? <==> Patchable(doc, opts)
  {
    var pod := DecodePod(doc).value;
    if Patchable(doc, opts) {
      PatchInjects(doc, opts);
    } else if Member(doc, "spec").Object? {
      SpecPathsGood();
      SpecPointer();
      PodPaths();
      PodFails(doc, "/spec", SPEC_PATHS, pod, opts);
    } else {
      assert pod == Pod([], [], []);
      NoContainersOps(POD_PATHS, opts);
      VolumesPath();
      NoSpecFails(doc, Operation("/spec/volumes", Array([VOLUME])));
    }
  }

  /** A pod without a spec decodes, and its patch does not apply. */
  lemma BarePodFails(opts: Options)
    requires opts.injectPodIdentity
    ensures
      var doc := Object(map[]);
      DecodePod(doc) == Some(Pod([], [], [])) && ApplyPatch(doc, InjectionOps(DecodePod(doc).value, opts)).None?
  {
    PatchAppliesExactly(Object(map[]), opts);
  }

  // ---------------------------------------------------------------- what is added, and adding it again

  function Names(vars: seq<EnvVar>): seq<string> {
    seq(|vars|, i requires 0 <= i < |vars| => vars[i].name)
  }

  const STS_NAMES := ["AWS_ENDPOINT_URL_STS", "AWS_STS_ENDPOINT"]
  const URL_NAMES := ["AWS_ENDPOINT_URL", "AWS_SECRETSMANAGER_ENDPOINT", "AWS_SSM_ENDPOINT"]
  const TOKEN_NAMES := ["AWS_CONTAINER_CREDENTIALS_FULL_URI", "AWS_CONTAINER_AUTHORIZATION_TOKEN_FILE", "AWS_CONTAINER_CREDENTIALS_TOKEN_FILE"]

  lemma AllNamesDistinct()
    ensures Distinct(STS_NAMES + URL_NAMES + TOKEN_NAMES)
  {
    assert "AWS_STS_ENDPOINT"[4] == 'S' && "AWS_ENDPOINT_URL"[4] == 'E' && "AWS_SSM_ENDPOINT"[4] == 'S';
    assert "AWS_STS_ENDPOINT"[5] == 'T' && "AWS_SSM_ENDPOINT"[5] == 'S';
  }

  lemma DesiredNames(opts: Options)
    ensures Names(DesiredEnvVars(opts)) == (if opts.stsEndpoint == "" then [] else STS_NAMES)
            + (if opts.awsEndpointURL == "" then [] else URL_NAMES) + (if opts.injectPodIdentity then TOKEN_NAMES else [])
  {
  }

  lemma DistinctParts(a: seq<string>, b: seq<string>, c: seq<string>, a': seq<string>, b': seq<string>, c': seq<string>)
    requires Distinct(a + b + c) && (a' == a || a' == []) && (b' == b || b' == []) && (c' == c || c' == [])
    ensures Distinct(a' + b' + c')
  {
    var whole, part := a + b + c, a' + b' + c';
    var at := (i: int) => if i < |a'| then i else if i < |a'| + |b'| then i - |a'| + |a| else i - |a'| - |b'| + |a| + |b|;
    assert forall i | 0 <= i < |part| :: 0 <= at(i) < |whole| && part[i] == whole[at(i)];
  }

  /** No options select one name twice. */
  lemma DesiredDistinct(opts: Options)
    ensures Distinct(Names(DesiredEnvVars(opts)))
  {
    AllNamesDistinct();
    DesiredNames(opts);
    DistinctParts(STS_NAMES, URL_NAMES, TOKEN_NAMES, if opts.stsEndpoint == "" then [] else STS_NAMES,
                  if opts.awsEndpointURL == "" then [] else URL_NAMES, if opts.injectPodIdentity then TOKEN_NAMES else []);
  }

  lemma NamesSnoc(vars: seq<EnvVar>, last: EnvVar)
    ensures Names(vars + [last]) == Names(vars) + [last.name]
  {
  }

  lemma {:induction false} MissingNames(names: seq<string>, desired: seq<EnvVar>, name: string)
    ensures name in Names(MissingVars(names, desired)) <==> name in Names(desired) && name !in names
  {
    if desired != [] {
      var front, last := desired[..|desired| - 1], desired[|desired| - 1];
      MissingNames(names, front, name);
      assert desired == front + [last];
      NamesSnoc(front, last);
      NamesSnoc(MissingVars(names, front), last);
    }
  }

  lemma {:induction false} MissingDistinct(names: seq<string>, desired: seq<EnvVar>)
    requires Distinct(Names(desired))
    ensures Distinct(Names(MissingVars(names, desired)))
  {
    if desired != [] {
      var front, last := desired[..|desired| - 1], desired[|desired| - 1];
      assert desired == front + [last];
      NamesSnoc(front, last);
      DistinctSnoc(Names(front), last.name);
      MissingDistinct(names, front);
      MissingNames(names, front, last.name);
      NamesSnoc(MissingVars(names, front), last);
      DistinctSnoc(Names(MissingVars(names, front)), last.name);
    }
  }

  /** A variable already there is never added again, and a missing one is added once. */
  lemma AddedOnce(names: seq<string>, opts: Options, name: string)
    ensures multiset(names + Names(MissingVars(names, DesiredEnvVars(opts))))[name] ==
            if name !in names && name in Names(DesiredEnvVars(opts)) then 1 else multiset(names)[name]
  {
    var desired := DesiredEnvVars(opts);
    DesiredDistinct(opts);
    MissingNames(names, desired, name);
    MissingDistinct(names, desired);
    CountDistinct(Names(MissingVars(names, desired)), name);
  }

  lemma DecodeSnoc(items: seq<Json>, last: Json)
    requires DecodeNames(items).Some? && IsStruct(last) && IsText(Member(last, "name"))
    ensures DecodeNames(items + [last]) == Some(DecodeNames(items).value + [Text(Member(last, "name"))])
  {
    assert (items + [last])[..|items|] == items;
  }

  lemma {:induction false} DecodeAppended(items: seq<Json>, more: seq<Json>)
    requires DecodeNames(items).Some? && DecodeNames(more).Some?
    ensures DecodeNames(items + more) == Some(DecodeNames(items).value + DecodeNames(more).value)
  {
    var names := DecodeNames(items).value;
    if more == [] {
      assert items + more == items;
      assert names + [] == names;
    } else {
      var front, last := more[..|more| - 1], more[|more| - 1];
      DecodeAppended(items, front);
      DecodeSnoc(items + front, last);
      Regroup(items, front, last);
      assert front + [last] == more;
      Regroup(names, DecodeNames(front).value, Text(Member(last, "name")));
    }
  }

  lemma {:induction false} DecodeVars(vars: seq<EnvVar>)
    ensures DecodeNames(EnvVarsJson(vars)) == Some(Names(vars))
  {
    if vars == [] {
      assert EnvVarsJson(vars) == [] && Names(vars) == [];
    } else {
      var front, last := vars[..|vars| - 1], vars[|vars| - 1];
      DecodeVars(front);
      DecodeSnoc(EnvVarsJson(front), EnvVarJson(last));
      assert EnvVarsJson(vars) == EnvVarsJson(front) + [EnvVarJson(last)];
      assert vars == front + [last];
      NamesSnoc(front, last);
    }
  }

  /** The names a list member decodes to after more elements. */
  lemma WithMoreDecodes(doc: Json, key: string, more: seq<Json>)
    requires doc.Object? && DecodeNameList(Member(doc, key)).Some? && DecodeNames(more).Some?
    ensures DecodeNameList(Member(WithMore(doc, key, more), key))
            == Some(DecodeNameList(Member(doc, key)).value + DecodeNames(more).value)
    ensures forall k | k != key :: Member(WithMore(doc, key, more), k) == Member(doc, k)
  {
    DecodeAppended(Items(Member(doc, key)), more);
    assert DecodeNameList(Member(doc, key)).value + [] == DecodeNameList(Member(doc, key)).value;
  }

  function MountNames(names: seq<string>): seq<string> {
    if TOKEN in names then names else names + [TOKEN]
  }

  lemma DecodeOne(element: Json)
    requires element.Object? && Member(element, "name").String?
    ensures DecodeNames([element]) == Some([Member(element, "name").text])
  {
    var none: seq<Json> := [];
    assert DecodeNames(none) == Some([]);
    DecodeSnoc(none, element);
    assert none + [element] == [element];
    assert [] + [Member(element, "name").text] == [Member(element, "name").text];
  }

  lemma InjectNamedDecodes(doc: Json, key: string, element: Json)
    requires doc.Object? && DecodeNameList(Member(doc, key)).Some?
    requires element.Object? && Member(element, "name") == String(TOKEN)
    ensures DecodeNameList(Member(InjectNamed(doc, key, element), key)) == Some(MountNames(DecodeNameList(Member(doc, key)).value))
    ensures forall k | k != key :: Member(InjectNamed(doc, key, element), k) == Member(doc, k)
  {
    DecodeOne(element);
    WithMoreDecodes(doc, key, [element]);
  }

  lemma EnvInjected(c: Json, k: Container, desired: seq<EnvVar>)
    requires c.Object? && DecodeContainer(c) == Some(k)
    ensures InjectEnv(c, desired).Object?
    ensures DecodeContainer(InjectEnv(c, desired)) == Some(k.(env := k.env + Names(MissingVars(k.env, desired))))
  {
    DecodeVars(MissingVars(k.env, desired));
    WithMoreDecodes(c, "env", EnvVarsJson(MissingVars(k.env, desired)));
  }

  lemma MountInjected(c: Json, k: Container)
    requires c.Object? && DecodeContainer(c) == Some(k)
    ensures DecodeContainer(InjectNamed(c, "volumeMounts", MOUNT)) == Some(k.(volumeMounts := MountNames(k.volumeMounts)))
  {
    InjectNamedDecodes(c, "volumeMounts", MOUNT);
  }

  function Injected(k: Container, opts: Options): Container {
    Container(k.env + Names(MissingVars(k.env, DesiredEnvVars(opts))),
              if opts.injectPodIdentity then MountNames(k.volumeMounts) else k.volumeMounts)
  }

  /** Each container's variables become the old ones followed by exactly the missing desired ones, and
      the token is mounted unless something of its name is.
   */
  lemma ContainerInjected(c: Json, k: Container, opts: Options)
    requires c.Object? && DecodeContainer(c) == Some(k)
    ensures DecodeContainer(InjectContainer(c, opts)) == Some(Injected(k, opts))
  {
    var desired := DesiredEnvVars(opts);
    EnvInjected(c, k, desired);
    if opts.injectPodIdentity {
      MountInjected(InjectEnv(c, desired), k.(env := k.env + Names(MissingVars(k.env, desired))));
    }
  }

  lemma {:induction false} DecodesElementwise(items: seq<Json>, containers: seq<Container>)
    requires |containers| == |items| && forall i | 0 <= i < |items| :: DecodeContainer(items[i]) == Some(containers[i])
    ensures DecodeContainers(items) == Some(containers)
  {
    if items != [] {
      var n := |items| - 1;
      DecodesElementwise(items[..n], containers[..n]);
      assert containers == containers[..n] + [containers[n]];
    }
  }

  function AllInjected(containers: seq<Container>, opts: Options): seq<Container> {
    seq(|containers|, i requires 0 <= i < |containers| => Injected(containers[i], opts))
  }

  lemma ListInjected(items: seq<Json>, containers: seq<Container>, opts: Options)
    requires DecodeContainers(items) == Some(containers) && Null !in items
    ensures DecodeContainers(InjectAll(items, opts)) == Some(AllInjected(containers, opts))
  {
    forall i | 0 <= i < |items|
      ensures DecodeContainer(InjectAll(items, opts)[i]) == Some(AllInjected(containers, opts)[i])
    {
      ListDecodes(items, containers, i);
      ContainerInjected(items[i], containers[i], opts);
    }
    DecodesElementwise(InjectAll(items, opts), AllInjected(containers, opts));
  }

  lemma SpecInjected(spec: Json, pod: Pod, opts: Options)
    requires spec.Object? && Decodes(spec, pod)
    requires Null !in Items(Member(spec, "containers")) && Null !in Items(Member(spec, "initContainers"))
    ensures InjectSpec(spec, opts).Object?
    ensures Decodes(InjectSpec(spec, opts), Pod(if opts.injectPodIdentity then MountNames(pod.volumes) else pod.volumes,
                                                AllInjected(pod.containers, opts), AllInjected(pod.initContainers, opts)))
  {
    InjectedLists(spec, opts);
    var injected := InjectContainers(InjectContainers(spec, "containers", opts), "initContainers", opts);
    InjectNamedDecodes(injected, "volumes", VOLUME);
    ListInjected(Items(Member(spec, "containers")), pod.containers, opts);
    ListInjected(Items(Member(spec, "initContainers")), pod.initContainers, opts);
  }

  /** The lists of the spec after the containers were injected. */
  lemma InjectedLists(spec: Json, opts: Options)
    requires spec.Object?
    ensures
      var injected := InjectContainers(InjectContainers(spec, "containers", opts), "initContainers", opts);
      && injected.Object? && Member(injected, "volumes") == Member(spec, "volumes")
      && Items(Member(injected, "containers")) == InjectAll(Items(Member(spec, "containers")), opts)
      && Items(Member(injected, "initContainers")) == InjectAll(Items(Member(spec, "initContainers")), opts)
      && IsList(Member(injected, "containers")) == IsList(Member(spec, "containers"))
      && IsList(Member(injected, "initContainers")) == IsList(Member(spec, "initContainers"))
  {
    InjectedMembers(spec, opts);
    assert InjectAll([], opts) == [];
  }

  /** The injected pod decodes to the pod with the names added. */
  lemma PodInjected(doc: Json, opts: Options)
    requires Selected(opts) && DecodePod(doc).Some? && Patchable(doc, opts)
    ensures
      var pod := DecodePod(doc).value;
      DecodePod(Inject(doc, opts)) == Some(Pod(
        if opts.injectPodIdentity then MountNames(pod.volumes) else pod.volumes,
        AllInjected(pod.containers, opts), AllInjected(pod.initContainers, opts)))
  {
    var pod, spec := DecodePod(doc).value, Member(doc, "spec");
    if spec.Object? {
      SpecInjected(spec, pod, opts);
    } else {
      assert pod == Pod([], [], []);
      NoSpecNoOps(doc, pod, opts);
      assert AllInjected([], opts) == [];
    }
  }

  lemma InjectedPatchable(doc: Json, opts: Options)
    requires DecodePod(doc).Some? && Patchable(doc, opts)
    ensures Patchable(Inject(doc, opts), opts)
  {
    var spec := Member(doc, "spec");
    if Selected(opts) && spec.Object? {
      var injected := InjectContainers(InjectContainers(spec, "containers", opts), "initContainers", opts);
      InjectedLists(spec, opts);
      InjectNamedMembers(injected, "volumes", VOLUME);
      StillObjects(ItemsOf(doc, "containers"), opts);
      StillObjects(ItemsOf(doc, "initContainers"), opts);
    }
  }

  lemma StillObjects(items: seq<Json>, opts: Options)
    requires Null !in items
    ensures Null !in InjectAll(items, opts)
  {
    forall i | 0 <= i < |items| ensures InjectAll(items, opts)[i] != Null {
      assert items[i] in items;
    }
  }

  lemma {:induction false} NothingMissing(names: seq<string>, desired: seq<EnvVar>)
    requires forall v | v in desired :: v.name in names
    ensures MissingVars(names, desired) == []
  {
    if desired != [] {
      NothingMissing(names, desired[..|desired| - 1]);
    }
  }

  lemma InjectedNeedsNothing(k: Container, opts: Options)
    ensures MissingVars(Injected(k, opts).env, DesiredEnvVars(opts)) == []
    ensures opts.injectPodIdentity ==> TOKEN in Injected(k, opts).volumeMounts
  {
    var desired := DesiredEnvVars(opts);
    forall v | v in desired ensures v.name in Injected(k, opts).env {
      MissingNames(k.env, desired, v.name);
      var i :| 0 <= i < |desired| && desired[i] == v;
      assert Names(desired)[i] == v.name;
    }
    NothingMissing(Injected(k, opts).env, desired);
  }

  lemma {:induction false} NoPassOps(base: string, pass: Pass, containers: seq<Container>)
    requires forall i | 0 <= i < |containers| :: ContainerOps(pass, containers[i]) == []
    ensures PassOps(base, pass, containers) == []
  {
    if containers != [] {
      NoPassOps(base, pass, containers[..|containers| - 1]);
    }
  }

  lemma NothingForInjected(base: string, env: string, mounts: string, containers: seq<Container>, opts: Options)
    ensures PassOps(base, EnvPass(env, DesiredEnvVars(opts)), AllInjected(containers, opts)) == []
    ensures opts.injectPodIdentity ==> PassOps(base, MountPass(mounts), AllInjected(containers, opts)) == []
  {
    forall i | 0 <= i < |containers|
      ensures ContainerOps(EnvPass(env, DesiredEnvVars(opts)), AllInjected(containers, opts)[i]) == []
      ensures opts.injectPodIdentity ==> ContainerOps(MountPass(mounts), AllInjected(containers, opts)[i]) == []
    {
      InjectedNeedsNothing(containers[i], opts);
    }
    NoPassOps(base, EnvPass(env, DesiredEnvVars(opts)), AllInjected(containers, opts));
    if opts.injectPodIdentity {
      NoPassOps(base, MountPass(mounts), AllInjected(containers, opts));
    }
  }

  lemma NothingForPod(p: Paths, pod: Pod, opts: Options)
    ensures SpecOps(p, Pod(if opts.injectPodIdentity then MountNames(pod.volumes) else pod.volumes,
                           AllInjected(pod.containers, opts), AllInjected(pod.initContainers, opts)), opts) == []
  {
    NothingForInjected(p.containers, p.env, p.volumeMounts, pod.containers, opts);
    NothingForInjected(p.initContainers, p.env, p.volumeMounts, pod.initContainers, opts);
  }

  /** Patch idempotence: the patched pod decodes, and the same options ask nothing more of it. */
  lemma PatchIdempotent(doc: Json, opts: Options)
    requires DecodePod(doc).Some? && Patchable(doc, opts)
    ensures DecodePod(Inject(doc, opts)).Some? && InjectionOps(DecodePod(Inject(doc, opts)).value, opts) == []
    ensures Inject(Inject(doc, opts), opts) == Inject(doc, opts)
  {
    if Selected(opts) {
      PodInjected(doc, opts);
      NothingForPod(POD_PATHS, DecodePod(doc).value, opts);
    }
    InjectedPatchable(doc, opts);
    PatchInjects(Inject(doc, opts), opts);
  }

  /** Everything else is unchanged: the other members of the pod, of its spec and of each container. */
  lemma OthersUnchanged(doc: Json, opts: Options, key: string)
    requires DecodePod(doc).Some?
    ensures key != "spec" ==> Member(Inject(doc, opts), key) == Member(doc, key)
    ensures key != "containers" && key != "initContainers" && key != "volumes" ==>
              Member(Member(Inject(doc, opts), "spec"), key) == Member(Member(doc, "spec"), key)
  {
    var spec := Member(doc, "spec");
    if Selected(opts) && spec.Object? {
      InjectedMembers(spec, opts);
      InjectNamedMembers(InjectContainers(InjectContainers(spec, "containers", opts), "initContainers", opts), "volumes", VOLUME);
    }
  }

  lemma ContainerOthersUnchanged(c: Json, opts: Options, key: string)
    requires key != "env" && key != "volumeMounts"
    ensures Member(InjectContainer(c, opts), key) == Member(c, key)
  {
    var withEnv := InjectEnv(c, DesiredEnvVars(opts));
    assert Member(withEnv, key) == Member(c, key);
  }

  /** The elements that were there stay in front, untouched; what comes after them is new. */
  lemma ElementsKept(c: Json, opts: Options, key: string)
    ensures Items(Member(c, key)) <= Items(Member(InjectContainer(c, opts), key))
  {
    var withEnv := InjectEnv(c, DesiredEnvVars(opts));
    assert Items(Member(c, key)) <= Items(Member(withEnv, key));
    assert Items(Member(withEnv, key)) <= Items(Member(InjectContainer(c, opts), key));
  }

  // ---------------------------------------------------------------- the webhook's patch

  datatype PatchError = NoObject | BadPod

  method CollectEnvVars(opts: Options) returns (envVars: seq<EnvVar>)
    ensures envVars == DesiredEnvVars(opts)
  {
    envVars := [];
    if opts.stsEndpoint != "" {
      envVars := envVars + [EnvVar("AWS_ENDPOINT_URL_STS", opts.stsEndpoint), EnvVar("AWS_STS_ENDPOINT", opts.stsEndpoint)];
    }
    if opts.awsEndpointURL != "" {
      envVars := envVars + [EnvVar("AWS_ENDPOINT_URL", opts.awsEndpointURL),
                            EnvVar("AWS_SECRETSMANAGER_ENDPOINT", opts.awsEndpointURL),
                            EnvVar("AWS_SSM_ENDPOINT", opts.awsEndpointURL)];
    }
    if opts.injectPodIdentity {
      var tokenFile := MOUNT_PATH + "/" + TOKEN;
      envVars := envVars + [EnvVar("AWS_CONTAINER_CREDENTIALS_FULL_URI", FULL_URI),
                            EnvVar("AWS_CONTAINER_AUTHORIZATION_TOKEN_FILE", tokenFile),
                            EnvVar("AWS_CONTAINER_CREDENTIALS_TOKEN_FILE", tokenFile)];
    }
  }

  /** The patch for a request; None is an admission without a patch, which leaves a patchable pod as the
      injection would.
   */
  method BuildInjectionPatch(request: Option<Json>, opts: Options) returns (r: Result<Option<seq<Operation>>, PatchError>)
    ensures r.Failure? <==> Selected(opts) && (request.None? || DecodePod(request.value).None?)
    ensures r.Failure? ==> r.error == if request.None? then NoObject else BadPod
    ensures r.Success? && r.value.None? && Selected(opts) ==> InjectionOps(DecodePod(request.value).value, opts) == []
    ensures r.Success? && r.value.Some? ==>
              && Selected(opts) && request.Some? && DecodePod(request.value).Some?
              && r.value.value == InjectionOps(DecodePod(request.value).value, opts) != []
    ensures r.Success? && request.Some? && DecodePod(request.value).Some? && Patchable(request.value, opts) ==>
              Some(Inject(request.value, opts)) == if r.value.None? then request else ApplyPatch(request.value, r.value.value)
  {
    if request.Some? && DecodePod(request.value).Some? && Patchable(request.value, opts) {
      PatchInjects(request.value, opts);
    }
    if opts.stsEndpoint == "" && !opts.injectPodIdentity {
      return Success(None);
    }
    if request.None? {
      return Failure(NoObject);
    }
    var pod := DecodePod(request.value);
    if pod.None? {
      return Failure(BadPod);
    }
    var envVars := CollectEnvVars(opts);
    var ops := ContainerEnvPatchOps("/spec/containers", pod.value.containers, envVars);
    var initOps := ContainerEnvPatchOps("/spec/initContainers", pod.value.initContainers, envVars);
    ops := ops + initOps;
    if opts.injectPodIdentity {
      var volumeOps := PodIdentityVolumePatchOps(pod.value);
      ops := ops + volumeOps;
    }
    r := Success(if |ops| == 0 then None else Some(ops));
  }
}
