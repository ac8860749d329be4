/** What the patched pod's containers find: which value each added variable carries, and that the token file
    the variables name is the one the added volume puts where the added mount says.
 */
module InjectorValues {
  import opened Injector
  import opened InjectorPatch
  import opened JsonPatch
  import opened Wrappers

  // ---------------------------------------------------------------- which variable gets which value

  /** STS calls go to the STS endpoint when that is set. */
  predicate StsVar(opts: Options, v: EnvVar) {
    opts.stsEndpoint != "" && (v.name == "AWS_ENDPOINT_URL_STS" || v.name == "AWS_STS_ENDPOINT") && v.value == opts.stsEndpoint
  }

  /** All other calls go to the emulator when that is set. */
  predicate EndpointVar(opts: Options, v: EnvVar) {
    && opts.awsEndpointURL != "" && v.value == opts.awsEndpointURL
    && (v.name == "AWS_ENDPOINT_URL" || v.name == "AWS_SECRETSMANAGER_ENDPOINT" || v.name == "AWS_SSM_ENDPOINT")
  }

  /** Pod identity names the agent's address for credentials. */
  predicate AddressVar(opts: Options, v: EnvVar) {
    opts.injectPodIdentity && v.name == "AWS_CONTAINER_CREDENTIALS_FULL_URI" && v.value == "http://169.254.170.23/v1/credentials"
  }

  /** Pod identity names the token's file, under one name for each family of SDKs. */
  predicate TokenVar(opts: Options, v: EnvVar, file: string) {
    && opts.injectPodIdentity && v.value == file
    && (v.name == "AWS_CONTAINER_AUTHORIZATION_TOKEN_FILE" || v.name == "AWS_CONTAINER_CREDENTIALS_TOKEN_FILE")
  }

  const TOKEN_FILE := "/var/run/secrets/pods.eks.amazonaws.com/serviceaccount/eks-pod-identity-token"

  /** The options ask for this variable with this value. */
  predicate Wants(opts: Options, v: EnvVar) {
    || StsVar(opts, v)
    || (EndpointVar(opts, v) && (opts.stsEndpoint != "" || opts.injectPodIdentity))
    || AddressVar(opts, v)
    || TokenVar(opts, v, TOKEN_FILE)
  }

  lemma TokenFile()
    ensures MOUNT_PATH + "/" + TOKEN == TOKEN_FILE
  {
  }

  lemma DesiredExactly(opts: Options, v: EnvVar)
    requires Selected(opts)
    ensures v in DesiredEnvVars(opts) <==> Wants(opts, v)
  {
    TokenFile();
    var file := MOUNT_PATH + "/" + TOKEN;
    var sts := if opts.stsEndpoint == "" then []
               else [EnvVar("AWS_ENDPOINT_URL_STS", opts.stsEndpoint), EnvVar("AWS_STS_ENDPOINT", opts.stsEndpoint)];
    var url := if opts.awsEndpointURL == "" then []
               else [EnvVar("AWS_ENDPOINT_URL", opts.awsEndpointURL), EnvVar("AWS_SECRETSMANAGER_ENDPOINT", opts.awsEndpointURL),
                     EnvVar("AWS_SSM_ENDPOINT", opts.awsEndpointURL)];
    var identity := if !opts.injectPodIdentity then []
                    else [EnvVar("AWS_CONTAINER_CREDENTIALS_FULL_URI", FULL_URI), EnvVar("AWS_CONTAINER_AUTHORIZATION_TOKEN_FILE", file),
                          EnvVar("AWS_CONTAINER_CREDENTIALS_TOKEN_FILE", file)];
    assert DesiredEnvVars(opts) == sts + url + identity;
    assert v in sts <==> StsVar(opts, v);
    assert v in url <==> EndpointVar(opts, v);
    assert v in identity <==> AddressVar(opts, v) || TokenVar(opts, v, file);
  }

  lemma {:induction false} MissingExactly(names: seq<string>, desired: seq<EnvVar>, v: EnvVar)
    ensures v in MissingVars(names, desired) <==> v in desired && v.name !in names
  {
    if desired != [] {
      var front, last := desired[..|desired| - 1], desired[|desired| - 1];
      MissingExactly(names, front, v);
      assert desired == front + [last];
    }
  }

  /** The missing variables come in the order of the desired ones. */
  lemma {:induction false} MissingByParts(names: seq<string>, a: seq<EnvVar>, b: seq<EnvVar>)
    ensures MissingVars(names, a + b) == MissingVars(names, a) + MissingVars(names, b)
  {
    if b == [] {
      assert a + b == a;
    } else {
      var front, last := b[..|b| - 1], b[|b| - 1];
      MissingByParts(names, a, front);
      assert (a + b)[..|a + b| - 1] == a + front && (a + b)[|a + b| - 1] == last;
    }
  }

  // ---------------------------------------------------------------- one container

  /** Some element of the list has this name. */
  ghost predicate Names(items: seq<Json>, name: string) {
    exists item | item in items :: Member(item, "name") == String(name)
  }

  /** The variable, as Kubernetes writes it. */
  function Variable(name: string, value: string): Json {
    Object(map["name" := String(name), "value" := String(value)])
  }

  lemma {:induction false} DecodedNames(items: seq<Json>, name: string)
    requires DecodeNames(items).Some? && name != ""
    ensures name in DecodeNames(items).value <==> Names(items, name)
  {
    if items != [] {
      var front, last := items[..|items| - 1], items[|items| - 1];
      DecodedNames(front, name);
      assert items == front + [last];
    }
  }

  lemma VariableNamed(v: EnvVar, name: string, value: string)
    ensures EnvVarJson(v) == Variable(name, value) <==> v == EnvVar(name, value)
    ensures Member(EnvVarJson(v), "name") == String(v.name)
  {
    assert Member(EnvVarJson(v), "name") == String(v.name) && Member(EnvVarJson(v), "value") == String(v.value);
    assert Member(Variable(name, value), "name") == String(name) && Member(Variable(name, value), "value") == String(value);
  }

  lemma AddedVariables(vars: seq<EnvVar>, name: string, value: string)
    ensures Variable(name, value) in EnvVarsJson(vars) <==> EnvVar(name, value) in vars
    ensures Names(EnvVarsJson(vars), name) <==> exists v | v in vars :: v.name == name
  {
    var items := EnvVarsJson(vars);
    forall v ensures EnvVarJson(v) == Variable(name, value) <==> v == EnvVar(name, value) {
      VariableNamed(v, name, value);
    }
    forall v ensures Member(EnvVarJson(v), "name") == String(v.name) {
      VariableNamed(v, name, value);
    }
    forall v | v in vars ensures EnvVarJson(v) in items {
      var i :| 0 <= i < |vars| && vars[i] == v;
      assert items[i] == EnvVarJson(v);
    }
    forall item | item in items ensures exists v | v in vars :: item == EnvVarJson(v) {
      var i :| 0 <= i < |items| && items[i] == item;
      assert vars[i] in vars;
    }
  }

  lemma EnvOfInjected(c: Json, k: Container, opts: Options)
    requires c.Object? && DecodeContainer(c) == Some(k)
    ensures Items(Member(InjectContainer(c, opts), "env")) ==
            Items(Member(c, "env")) + EnvVarsJson(MissingVars(k.env, DesiredEnvVars(opts)))
  {
    var missing := EnvVarsJson(MissingVars(k.env, DesiredEnvVars(opts)));
    var withEnv := InjectEnv(c, DesiredEnvVars(opts));
    assert Items(Member(withEnv, "env")) == Items(Member(c, "env")) + missing;
    if opts.injectPodIdentity {
      InjectNamedMembers(withEnv, "volumeMounts", MOUNT);
    }
  }

  lemma ContainerVariable(c: Json, k: Container, opts: Options, name: string, value: string)
    requires c.Object? && DecodeContainer(c) == Some(k) && Selected(opts) && name != "" && !Names(Items(Member(c, "env")), name)
    ensures
      var env := Items(Member(InjectContainer(c, opts), "env"));
      && (Variable(name, value) in env <==> Wants(opts, EnvVar(name, value)))
      && (Names(env, name) <==> exists v: EnvVar :: v.name == name && Wants(opts, v))
  {
    var desired := DesiredEnvVars(opts);
    var before, added := Items(Member(c, "env")), EnvVarsJson(MissingVars(k.env, desired));
    EnvOfInjected(c, k, opts);
    DecodedNames(before, name);
    AddedVariables(MissingVars(k.env, desired), name, value);
    forall v ensures v in MissingVars(k.env, desired) <==> Wants(opts, v) && v.name !in k.env {
      MissingExactly(k.env, desired, v);
      DesiredExactly(opts, v);
    }
    assert Member(Variable(name, value), "name") == String(name);
    assert Variable(name, value) !in before;
    NamesConcat(before, added, name);
  }

  lemma NamesConcat(a: seq<Json>, b: seq<Json>, name: string)
    ensures Names(a + b, name) <==> Names(a, name) || Names(b, name)
  {
    forall item ensures item in a + b <==> item in a || item in b {
    }
  }

  // ---------------------------------------------------------------- the patched pod

  /** The pod as the API server stores it after the webhook. */
  ghost function Patched(doc: Json, opts: Options): Json
    requires DecodePod(doc).Some?
  {
    match ApplyPatch(doc, InjectionOps(DecodePod(doc).value, opts))
    case Some(patched) => patched
    case None => doc
  }

  predicate ContainerList(key: string) {
    key == "containers" || key == "initContainers"
  }

  lemma PatchedList(doc: Json, opts: Options, key: string)
    requires DecodePod(doc).Some? && Patchable(doc, opts) && Selected(opts) && ContainerList(key)
    requires Member(doc, "spec").Object?
    ensures ItemsOf(Patched(doc, opts), key) == InjectAll(ItemsOf(doc, key), opts)
  {
    var spec := Member(doc, "spec");
    PatchInjects(doc, opts);
    InjectedMembers(spec, opts);
    var injected := InjectContainers(InjectContainers(spec, "containers", opts), "initContainers", opts);
    InjectNamedMembers(injected, "volumes", VOLUME);
    assert Member(Inject(doc, opts), "spec") == InjectSpec(spec, opts);
    assert Items(Member(injected, key)) == InjectAll(Items(Member(spec, key)), opts);
  }

  lemma PatchedContainer(doc: Json, opts: Options, key: string, i: nat) returns (k: Container)
    requires DecodePod(doc).Some? && Patchable(doc, opts) && Selected(opts) && ContainerList(key) && i < |ItemsOf(doc, key)|
    ensures ItemsOf(doc, key)[i].Object? && DecodeContainer(ItemsOf(doc, key)[i]) == Some(k)
    ensures |ItemsOf(Patched(doc, opts), key)| == |ItemsOf(doc, key)|
    ensures ItemsOf(Patched(doc, opts), key)[i] == InjectContainer(ItemsOf(doc, key)[i], opts)
  {
    PatchedList(doc, opts, key);
    var containers := DecodeContainerList(Member(Member(doc, "spec"), key)).value;
    ListDecodes(ItemsOf(doc, key), containers, i);
    k := containers[i];
  }

  /** In the patched pod, a container that did not define a name has exactly the variable of that name that
      the options ask for, with its value; a general endpoint alone asks for none.
   */
  lemma PatchedVariable(doc: Json, opts: Options, key: string, i: nat, name: string, value: string)
    requires DecodePod(doc).Some? && Patchable(doc, opts) && ContainerList(key) && i < |ItemsOf(doc, key)|
    requires name != "" && !Names(Items(Member(ItemsOf(doc, key)[i], "env")), name)
    ensures |ItemsOf(Patched(doc, opts), key)| == |ItemsOf(doc, key)|
    ensures
      var env := Items(Member(ItemsOf(Patched(doc, opts), key)[i], "env"));
      && (Variable(name, value) in env <==> Wants(opts, EnvVar(name, value)))
      && (Names(env, name) <==> exists v: EnvVar :: v.name == name && Wants(opts, v))
  {
    if Selected(opts) {
      var k := PatchedContainer(doc, opts, key, i);
      ContainerVariable(ItemsOf(doc, key)[i], k, opts, name, value);
    } else {
      PatchInjects(doc, opts);
      assert Member(Variable(name, value), "name") == String(name);
    }
  }

  // ---------------------------------------------------------------- the token file

  /** A volume that puts a token for the agent into a file. */
  function TokenVolume(name: string, file: string): Json {
    Object(map["name" := String(name),
               "projected" := Object(map["sources" := Array([Object(map["serviceAccountToken" := Object(map[
                 "audience" := String("pods.eks.amazonaws.com"), "expirationSeconds" := Number(3600),
                 "path" := String(file)])])])])])
  }

  function ReadOnlyMount(name: string, path: string): Json {
    Object(map["name" := String(name), "readOnly" := Bool(true), "mountPath" := String(path)])
  }

  /** The variable names a file below a mount of a volume, and the volume has the token in that file. */
  ghost predicate FindsToken(pod: Json, container: Json, variable: string, volume: string, path: string, file: string) {
    && Variable(variable, path + "/" + file) in Items(Member(container, "env"))
    && ReadOnlyMount(volume, path) in Items(Member(container, "volumeMounts"))
    && TokenVolume(volume, file) in ItemsOf(pod, "volumes")
  }

  lemma AddedNamed(doc: Json, key: string, element: Json)
    requires doc.Object? && DecodeNameList(Member(doc, key)).Some? && !Names(Items(Member(doc, key)), TOKEN)
    ensures element in Items(Member(InjectNamed(doc, key, element), key))
  {
    DecodedNames(Items(Member(doc, key)), TOKEN);
  }

  lemma MountAdded(c: Json, k: Container, opts: Options)
    requires c.Object? && DecodeContainer(c) == Some(k) && opts.injectPodIdentity
    requires !Names(Items(Member(c, "volumeMounts")), "eks-pod-identity-token")
    ensures MOUNT in Items(Member(InjectContainer(c, opts), "volumeMounts"))
  {
    var withEnv := InjectEnv(c, DesiredEnvVars(opts));
    assert Member(withEnv, "volumeMounts") == Member(c, "volumeMounts");
    AddedNamed(withEnv, "volumeMounts", MOUNT);
  }

  lemma VolumeAdded(doc: Json, opts: Options)
    requires DecodePod(doc).Some? && Patchable(doc, opts) && opts.injectPodIdentity
    requires !Names(ItemsOf(doc, "volumes"), "eks-pod-identity-token")
    ensures VOLUME in ItemsOf(Patched(doc, opts), "volumes")
  {
    var spec := Member(doc, "spec");
    PatchInjects(doc, opts);
    InjectedMembers(spec, opts);
    var injected := InjectContainers(InjectContainers(spec, "containers", opts), "initContainers", opts);
    assert Member(injected, "volumes") == Member(spec, "volumes");
    AddedNamed(injected, "volumes", VOLUME);
  }

  /** Where nothing of the token's name was there, a patched container finds the token in the file its
      variable names: the added volume's file, below the added mount of that volume.
   */
  lemma TokenFound(doc: Json, opts: Options, key: string, i: nat, variable: string)
    requires DecodePod(doc).Some? && Patchable(doc, opts) && opts.injectPodIdentity && ContainerList(key) && i < |ItemsOf(doc, key)|
    requires variable == "AWS_CONTAINER_AUTHORIZATION_TOKEN_FILE" || variable == "AWS_CONTAINER_CREDENTIALS_TOKEN_FILE"
    requires !Names(Items(Member(ItemsOf(doc, key)[i], "env")), variable)
    requires !Names(Items(Member(ItemsOf(doc, key)[i], "volumeMounts")), "eks-pod-identity-token")
    requires !Names(ItemsOf(doc, "volumes"), "eks-pod-identity-token")
    ensures |ItemsOf(Patched(doc, opts), key)| == |ItemsOf(doc, key)|
    ensures exists volume, path, file ::
              FindsToken(Patched(doc, opts), ItemsOf(Patched(doc, opts), key)[i], variable, volume, path, file)
  {
    var k := PatchedContainer(doc, opts, key, i);
    MountAdded(ItemsOf(doc, key)[i], k, opts);
    VolumeAdded(doc, opts);
    TokenFile();
    PatchedVariable(doc, opts, key, i, variable, TOKEN_FILE);
    assert TokenVar(opts, EnvVar(variable, TOKEN_FILE), TOKEN_FILE);
    assert MOUNT == ReadOnlyMount(TOKEN, MOUNT_PATH) && VOLUME == TokenVolume(TOKEN, TOKEN);
    assert FindsToken(Patched(doc, opts), ItemsOf(Patched(doc, opts), key)[i], variable, TOKEN, MOUNT_PATH, TOKEN);
  }
}
