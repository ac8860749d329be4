/** The pod-mutating webhook: which environment variables, volume and mounts it adds, and the JSON
    Patch it sends (internal/agent/injector.go).

    A pod stays the JSON document the API server sent; the decoded view holds only the names the
    injector looks at.
 */
module Injector {
  import opened JsonPatch
  import opened Wrappers

  // ---------------------------------------------------------------- the decoded pod

  /** The names of a container's environment variables and of the volumes it mounts. */
  datatype Container = Container(env: seq<string>, volumeMounts: seq<string>)

  datatype Pod = Pod(volumes: seq<string>, containers: seq<Container>, initContainers: seq<Container>)

  /** A member, null when the document is not an object or lacks it. */
  function Member(doc: Json, key: string): Json {
    if doc.Object? && key in doc.members then doc.members[key] else Null
  }

  /** Decoding a list: null leaves it empty. */
  function Items(doc: Json): seq<Json> {
    if doc.Array? then doc.items else []
  }

  predicate IsStruct(doc: Json) {
    doc.Object? || doc.Null?
  }

  predicate IsList(doc: Json) {
    doc.Array? || doc.Null?
  }

  predicate IsText(doc: Json) {
    doc.String? || doc.Null?
  }

  function Text(doc: Json): string {
    if doc.String? then doc.text else ""
  }

  /** The names of a list of named things; None when an element does not decode. */
  function DecodeNames(items: seq<Json>): (r: Option<seq<string>>)
    ensures r.Some? ==> |r.value| == |items|
  {
    if items == [] then Some([])
    else
      var front, last := DecodeNames(items[..|items| - 1]), items[|items| - 1];
      if front.Some? && IsStruct(last) && IsText(Member(last, "name"))
      then Some(front.value + [Text(Member(last, "name"))])
      else None
  }

  function DecodeNameList(doc: Json): Option<seq<string>> {
    if IsList(doc) then DecodeNames(Items(doc)) else None
  }

  function DecodeContainer(doc: Json): Option<Container> {
    var env, mounts := DecodeNameList(Member(doc, "env")), DecodeNameList(Member(doc, "volumeMounts"));
    if IsStruct(doc) && env.Some? && mounts.Some? then Some(Container(env.value, mounts.value)) else None
  }

  function DecodeContainers(items: seq<Json>): (r: Option<seq<Container>>)
    ensures r.Some? ==> |r.value| == |items|
  {
    if items == [] then Some([])
    else
      var front, last := DecodeContainers(items[..|items| - 1]), DecodeContainer(items[|items| - 1]);
      if front.Some? && last.Some? then Some(front.value + [last.value]) else None
  }

  function DecodeContainerList(doc: Json): Option<seq<Container>> {
    if IsList(doc) then DecodeContainers(Items(doc)) else None
  }

  function DecodePod(doc: Json): Option<Pod> {
    var spec := Member(doc, "spec");
    var volumes := DecodeNameList(Member(spec, "volumes"));
    var containers := DecodeContainerList(Member(spec, "containers"));
    var initContainers := DecodeContainerList(Member(spec, "initContainers"));
    if IsStruct(doc) && IsStruct(spec) && volumes.Some? && containers.Some? && initContainers.Some?
    then Some(Pod(volumes.value, containers.value, initContainers.value))
    else None
  }

  /** A list of objects, or nulls, whose names are strings where they are there. */
  ghost predicate NamedList(doc: Json) {
    && (doc.Array? || doc.Null?)
    && forall item | item in Items(doc) :: (item.Object? || item.Null?) && (Member(item, "name").String? || Member(item, "name").Null?)
  }

  ghost predicate ContainerShape(doc: Json) {
    (doc.Object? || doc.Null?) && NamedList(Member(doc, "env")) && NamedList(Member(doc, "volumeMounts"))
  }

  ghost predicate ContainersShape(doc: Json) {
    (doc.Array? || doc.Null?) && forall item | item in Items(doc) :: ContainerShape(item)
  }

  ghost predicate PodShape(doc: Json) {
    var spec := Member(doc, "spec");
    && (doc.Object? || doc.Null?) && (spec.Object? || spec.Null?) && NamedList(Member(spec, "volumes"))
    && ContainersShape(Member(spec, "containers")) && ContainersShape(Member(spec, "initContainers"))
  }

  lemma {:induction false} NamesExactly(items: seq<Json>)
    ensures DecodeNames(items).Some? <==>
            forall item | item in items :: (item.Object? || item.Null?) && (Member(item, "name").String? || Member(item, "name").Null?)
    ensures DecodeNames(items).Some? ==> forall i | 0 <= i < |items| :: DecodeNames(items).value[i] == Text(Member(items[i], "name"))
  {
    if items != [] {
      var front, last := items[..|items| - 1], items[|items| - 1];
      NamesExactly(front);
      assert items == front + [last];
    }
  }

  lemma ContainerExactly(doc: Json)
    ensures DecodeContainer(doc).Some? <==> ContainerShape(doc)
  {
    NamesExactly(Items(Member(doc, "env")));
    NamesExactly(Items(Member(doc, "volumeMounts")));
  }

  lemma {:induction false} ContainersExactly(items: seq<Json>)
    ensures DecodeContainers(items).Some? <==> forall item | item in items :: ContainerShape(item)
  {
    if items != [] {
      var front, last := items[..|items| - 1], items[|items| - 1];
      ContainersExactly(front);
      ContainerExactly(last);
      assert items == front + [last];
    }
  }

  /** Exactly the documents of a pod's shape decode, and a null list decodes like an empty one. */
  lemma PodDecodesExactly(doc: Json)
    ensures DecodePod(doc).Some? <==> PodShape(doc)
    ensures DecodePod(doc).Some? ==>
              var pod, spec := DecodePod(doc).value, Member(doc, "spec");
              && |pod.volumes| == |Items(Member(spec, "volumes"))| && |pod.containers| == |Items(Member(spec, "containers"))|
              && |pod.initContainers| == |Items(Member(spec, "initContainers"))|
  {
    var spec := Member(doc, "spec");
    NamesExactly(Items(Member(spec, "volumes")));
    ContainersExactly(Items(Member(spec, "containers")));
    ContainersExactly(Items(Member(spec, "initContainers")));
  }

  // ---------------------------------------------------------------- what is injected

  datatype Options = Options(stsEndpoint: string, awsEndpointURL: string, injectPodIdentity: bool)

  datatype EnvVar = EnvVar(name: string, value: string)

  const TOKEN := "eks-pod-identity-token"
  const MOUNT_PATH := "/var/run/secrets/pods.eks.amazonaws.com/serviceaccount"
  const AUDIENCE := "pods.eks.amazonaws.com"
  const FULL_URI := "http://169.254.170.23/v1/credentials"
  const TOKEN_EXPIRATION_SECONDS := 3600

  predicate Selected(opts: Options) {
    opts.stsEndpoint != "" || opts.injectPodIdentity
  }

  function DesiredEnvVars(opts: Options): seq<EnvVar> {
    (if opts.stsEndpoint == "" then []
     else [EnvVar("AWS_ENDPOINT_URL_STS", opts.stsEndpoint), EnvVar("AWS_STS_ENDPOINT", opts.stsEndpoint)])
    + (if opts.awsEndpointURL == "" then []
       else [EnvVar("AWS_ENDPOINT_URL", opts.awsEndpointURL), EnvVar("AWS_SECRETSMANAGER_ENDPOINT", opts.awsEndpointURL),
             EnvVar("AWS_SSM_ENDPOINT", opts.awsEndpointURL)])
    + (if !opts.injectPodIdentity then []
       else [EnvVar("AWS_CONTAINER_CREDENTIALS_FULL_URI", FULL_URI),
             EnvVar("AWS_CONTAINER_AUTHORIZATION_TOKEN_FILE", MOUNT_PATH + "/" + TOKEN),
             EnvVar("AWS_CONTAINER_CREDENTIALS_TOKEN_FILE", MOUNT_PATH + "/" + TOKEN)])
  }

  function EnvVarJson(v: EnvVar): Json {
    Object(map["name" := String(v.name), "value" := String(v.value)])
  }

  function EnvVarsJson(vars: seq<EnvVar>): seq<Json> {
    seq(|vars|, i requires 0 <= i < |vars| => EnvVarJson(vars[i]))
  }

  const MOUNT := Object(map["name" := String(TOKEN), "readOnly" := Bool(true), "mountPath" := String(MOUNT_PATH)])

  const VOLUME := Object(map[
    "name" := String(TOKEN),
    "projected" := Object(map["sources" := Array([Object(map["serviceAccountToken" := Object(map[
      "audience" := String(AUDIENCE), "expirationSeconds" := Number(TOKEN_EXPIRATION_SECONDS), "path" := String(TOKEN)])])])])])

  /** The desired variables not among the names, in their order. */
  function MissingVars(names: seq<string>, desired: seq<EnvVar>): seq<EnvVar> {
    if desired == [] then []
    else
      var front, last := MissingVars(names, desired[..|desired| - 1]), desired[|desired| - 1];
      if last.name in names then front else front + [last]
  }

  /** The intended injection, said on the document: a list member gains elements at its end. */
  function WithMore(doc: Json, key: string, more: seq<Json>): Json {
    if doc.Object? && more != [] then Object(doc.members[key := Array(Items(Member(doc, key)) + more)]) else doc
  }

  function InjectEnv(container: Json, desired: seq<EnvVar>): Json {
    var names := DecodeNameList(Member(container, "env"));
    if names.None? then container
    else WithMore(container, "env", EnvVarsJson(MissingVars(names.value, desired)))
  }

  /** A list member gains `element` unless an element is named like the token already. */
  function InjectNamed(doc: Json, key: string, element: Json): Json {
    var names := DecodeNameList(Member(doc, key));
    if names.None? || TOKEN in names.value then doc else WithMore(doc, key, [element])
  }

  function InjectContainer(container: Json, opts: Options): Json {
    var withEnv := InjectEnv(container, DesiredEnvVars(opts));
    if opts.injectPodIdentity then InjectNamed(withEnv, "volumeMounts", MOUNT) else withEnv
  }

  function InjectAll(containers: seq<Json>, opts: Options): seq<Json> {
    seq(|containers|, i requires 0 <= i < |containers| => InjectContainer(containers[i], opts))
  }

  function InjectContainers(spec: Json, key: string, opts: Options): Json {
    if spec.Object? && Member(spec, key).Array?
    then Object(spec.members[key := Array(InjectAll(Member(spec, key).items, opts))])
    else spec
  }

  function InjectSpec(spec: Json, opts: Options): Json {
    var injected := InjectContainers(InjectContainers(spec, "containers", opts), "initContainers", opts);
    if opts.injectPodIdentity then InjectNamed(injected, "volumes", VOLUME) else injected
  }

  function Inject(doc: Json, opts: Options): Json {
    if Selected(opts) && doc.Object? && "spec" in doc.members
    then Object(doc.members["spec" := InjectSpec(doc.members["spec"], opts)])
    else doc
  }

  // ---------------------------------------------------------------- the operations

  /** The two passes over the containers; `path` is where a container keeps the list a pass adds to. */
  datatype Pass = EnvPass(path: string, desired: seq<EnvVar>) | MountPass(path: string)

  function AppendOps(path: string, values: seq<Json>): seq<Operation> {
    if values == [] then [] else AppendOps(path, values[..|values| - 1]) + [Operation(path + "/-", values[|values| - 1])]
  }

  /** Adding to a list: set it when it has no elements yet, else append one by one. */
  function ListOps(path: string, names: seq<string>, values: seq<Json>): seq<Operation> {
    if values == [] then []
    else if names == [] then [Operation(path, Array(values))]
    else AppendOps(path, values)
  }

  /** The element to add unless one is named like the token. */
  function UnlessNamed(names: seq<string>, element: Json): seq<Json> {
    if TOKEN in names then [] else [element]
  }

  /** What a pass emits for one container, with paths from the container. */
  function ContainerOps(pass: Pass, c: Container): seq<Operation> {
    match pass
    case EnvPass(path, desired) => ListOps(path, c.env, EnvVarsJson(MissingVars(c.env, desired)))
    case MountPass(path) => ListOps(path, c.volumeMounts, UnlessNamed(c.volumeMounts, MOUNT))
  }

  function PassOps(basePath: string, pass: Pass, containers: seq<Container>): seq<Operation> {
    if containers == [] then []
    else
      var n := |containers| - 1;
      PassOps(basePath, pass, containers[..n]) + Prefixed(basePath + "/" + Decimal(n), ContainerOps(pass, containers[n]))
  }

  /** Where the lists are, in the spec and in a container. */
  datatype Paths = Paths(containers: string, initContainers: string, volumes: string, env: string, volumeMounts: string)

  /** A pass over both lists of containers. */
  function BothOps(p: Paths, pass: Pass, pod: Pod): seq<Operation> {
    PassOps(p.containers, pass, pod.containers) + PassOps(p.initContainers, pass, pod.initContainers)
  }

  function EnvOps(p: Paths, pod: Pod, desired: seq<EnvVar>): seq<Operation> {
    BothOps(p, EnvPass(p.env, desired), pod)
  }

  function VolumeOps(p: Paths, pod: Pod): seq<Operation> {
    ListOps(p.volumes, pod.volumes, UnlessNamed(pod.volumes, VOLUME)) + BothOps(p, MountPass(p.volumeMounts), pod)
  }

  /** The operations for the whole pod. */
  function SpecOps(p: Paths, pod: Pod, opts: Options): seq<Operation> {
    EnvOps(p, pod, DesiredEnvVars(opts)) + if opts.injectPodIdentity then VolumeOps(p, pod) else []
  }

  const SPEC_PATHS := Paths("/containers", "/initContainers", "/volumes", "/env", "/volumeMounts")

  const POD_PATHS := Paths("/spec/containers", "/spec/initContainers", "/spec/volumes", "/env", "/volumeMounts")

  function InjectionOps(pod: Pod, opts: Options): seq<Operation> {
    if Selected(opts) then SpecOps(POD_PATHS, pod, opts) else []
  }

  method HasName(names: seq<string>, name: string) returns (found: bool)
    ensures found <==> name in names
  {
    for i := 0 to |names|
      invariant name !in names[..i]
    {
      if names[i] == name {
        return true;
      }
    }
    found := false;
  }

  /** The variables of the list that a container lacks. */
  method VarsToAdd(env: seq<string>, envVars: seq<EnvVar>) returns (toAdd: seq<EnvVar>)
    ensures toAdd == MissingVars(env, envVars)
  {
    toAdd := [];
    for j := 0 to |envVars|
      invariant toAdd == MissingVars(env, envVars[..j])
    {
      var present := HasName(env, envVars[j].name);
      if !present {
        toAdd := toAdd + [envVars[j]];
      }
      assert envVars[..j + 1][..j] == envVars[..j];
    }
    assert envVars[..|envVars|] == envVars;
  }

  lemma PassOpsLast(basePath: string, pass: Pass, containers: seq<Container>, i: nat)
    requires i < |containers|
    ensures PassOps(basePath, pass, containers[..i + 1])
            == PassOps(basePath, pass, containers[..i]) + Prefixed(basePath + "/" + Decimal(i), ContainerOps(pass, containers[i]))
  {
    assert containers[..i + 1][..i] == containers[..i];
  }

  lemma AppendOpsOne(path: string, name: string, value: Json)
    requires name == path + "/-"
    ensures AppendOps(path, [value]) == [Operation(name, value)]
  {
    assert [value][..0] == [];
  }

  lemma PrefixedConcat(path: string, a: seq<Operation>, b: seq<Operation>)
    ensures Prefixed(path, a + b) == Prefixed(path, a) + Prefixed(path, b)
  {
  }

  lemma {:induction false} AppendOpsLast(path: string, base: string, name: string, values: seq<Json>, j: nat)
    requires j < |values| && name == base + "/-"
    ensures Prefixed(path, AppendOps(base, values[..j + 1])) == Prefixed(path, AppendOps(base, values[..j])) + [Operation(path + name, values[j])]
  {
    assert values[..j + 1][..j] == values[..j];
    PrefixedConcat(path, AppendOps(base, values[..j]), [Operation(name, values[j])]);
  }

  /** One container's variables: a single array when it has none yet, else one append each. */
  method AddEnvOps(path: string, env: seq<string>, toAdd: seq<EnvVar>) returns (ops: seq<Operation>)
    ensures ops == Prefixed(path, ListOps("/env", env, EnvVarsJson(toAdd)))
  {
    ops := [];
    if |toAdd| == 0 {
      return;
    }
    if |env| == 0 {
      return [Operation(path + "/env", Array(EnvVarsJson(toAdd)))];
    }
    ghost var values := EnvVarsJson(toAdd);
    for j := 0 to |toAdd|
      invariant ops == Prefixed(path, AppendOps("/env", values[..j]))
    {
      AppendOpsLast(path, "/env", "/env/-", values, j);
      ops := ops + [Operation(path + "/env/-", EnvVarJson(toAdd[j]))];
    }
    assert values[..|toAdd|] == values;
  }

  method ContainerEnvPatchOps(basePath: string, containers: seq<Container>, envVars: seq<EnvVar>) returns (ops: seq<Operation>)
    ensures ops == PassOps(basePath, EnvPass("/env", envVars), containers)
  {
    ops := [];
    for i := 0 to |containers|
      invariant ops == PassOps(basePath, EnvPass("/env", envVars), containers[..i])
    {
      var toAdd := VarsToAdd(containers[i].env, envVars);
      var added := AddEnvOps(basePath + "/" + Decimal(i), containers[i].env, toAdd);
      ops := ops + added;
      PassOpsLast(basePath, EnvPass("/env", envVars), containers, i);
    }
    assert containers[..|containers|] == containers;
  }

  lemma MountOpsCases(path: string, c: Container)
    ensures Prefixed(path, ContainerOps(MountPass("/volumeMounts"), c)) ==
            if TOKEN in c.volumeMounts then []
            else if c.volumeMounts == [] then [Operation(path + "/volumeMounts", Array([MOUNT]))]
            else [Operation(path + "/volumeMounts/-", MOUNT)]
  {
    AppendOpsOne("/volumeMounts", "/volumeMounts/-", MOUNT);
  }

  method ContainerVolumeMountPatchOps(basePath: string, containers: seq<Container>) returns (ops: seq<Operation>)
    ensures ops == PassOps(basePath, MountPass("/volumeMounts"), containers)
  {
    ops := [];
    for i := 0 to |containers|
      invariant ops == PassOps(basePath, MountPass("/volumeMounts"), containers[..i])
    {
      var path := basePath + "/" + Decimal(i);
      PassOpsLast(basePath, MountPass("/volumeMounts"), containers, i);
      MountOpsCases(path, containers[i]);
      var mounted := HasName(containers[i].volumeMounts, TOKEN);
      if mounted {
        continue;
      }
      if |containers[i].volumeMounts| == 0 {
        ops := ops + [Operation(path + "/volumeMounts", Array([MOUNT]))];
        continue;
      }
      ops := ops + [Operation(path + "/volumeMounts/-", MOUNT)];
    }
    assert containers[..|containers|] == containers;
  }

  function AddVolumeOp(volumes: seq<string>): Operation {
    if volumes == [] then Operation("/spec/volumes", Array([VOLUME])) else Operation("/spec/volumes/-", VOLUME)
  }

  lemma AddVolumeOpIsListOps(volumes: seq<string>)
    ensures ListOps("/spec/volumes", volumes, UnlessNamed(volumes, VOLUME))
            == if TOKEN in volumes then [] else [AddVolumeOp(volumes)]
  {
    AppendOpsOne("/spec/volumes", "/spec/volumes/-", VOLUME);
  }

  method PodIdentityVolumePatchOps(pod: Pod) returns (ops: seq<Operation>)
    ensures ops == VolumeOps(POD_PATHS, pod)
  {
    ops := [];
    var present := HasName(pod.volumes, TOKEN);
    if !present {
      ops := [AddVolumeOp(pod.volumes)];
    }
    assert ops == ListOps("/spec/volumes", pod.volumes, UnlessNamed(pod.volumes, VOLUME)) by {
      AddVolumeOpIsListOps(pod.volumes);
    }
    var mounts := ContainerVolumeMountPatchOps("/spec/containers", pod.containers);
    ops := ops + mounts;
    var initMounts := ContainerVolumeMountPatchOps("/spec/initContainers", pod.initContainers);
    ops := ops + initMounts;
  }
}
