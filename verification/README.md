# Verified model of fjord's agent

fjord runs a local cluster that behaves like EKS. Its agent (`internal/agent`) compiles
ClusterNetworkPolicies into NetworkPolicies and keeps them applied, resolves the targets of
TargetGroupBindings, injects credential sources into pods, keeps registries of principals, Pod Identity
associations and access entries in Secrets and ConfigMaps, and turns EKS access policies into RBAC
bindings; `internal/eksd` finds the newest EKS Distro release. This project models those programs in
Dafny and proves what they are for. `dafny verify dfyconfig.toml` verifies everything.

## How the model is laid out

| file | what it holds |
|---|---|
| `Kube.dfy`, `NetworkPolicy.dfy` | label selectors, int32, and the NetworkPolicy API with the verdict it gives a connection |
| `ClusterNetworkPolicy.dfy` | the compiler: its loops as methods, each equal to a function of the policy |
| `ClusterNetworkPolicyMeaning.dfy` | an independent reading of Allow and Deny rules, and the compiled policy's verdict against it |
| `ClusterNetworkPolicyLimits.dfy` | exactly where the compiled policy lets through what is denied, and when nothing is emitted |
| `ClusterNetworkPolicyCanonical.dfy` | which Deny ports are enforced and which are reported; rule and map order do not matter |
| `CNPController.dfy` | one reconcile pass against an API server whose calls may fail |
| `CNPRaces.dfy` | the same pass while others write NetworkPolicies |
| `NamespaceVerdict.dfy` | what a namespace admits after a pass, under all its policies together |
| `WakeUp.dfy` | the one-slot wake-up channel shared by two controllers, as a machine over all interleavings |
| `OptimisticStore.dfy` | the get-or-create, edit, conditional update, retry protocol for any number of clients |
| `Registries.dfy` | its three instances; the Secret-backed store as a program whose API calls are steps of that machine |
| `JsonPatch.dfy` | JSON, JSON Pointer (RFC 6901) and the `add` of JSON Patch (RFC 6902) |
| `Injector.dfy`, `InjectorPatch.dfy`, `InjectorEffects.dfy` | the patch generator, its correctness, and where and how often it takes effect |
| `InjectorValues.dfy` | which value each added variable has, and that the token is where the variables say |
| `Sorting.dfy`, `Sequences.dfy`, `Wrappers.dfy` | sorting by a strict total order, flattening, Option and Result |
| `TargetGroupBinding.dfy` | target resolution |
| `TargetGroupBindingController.dfy` | informers, watch, work queue, workers and status writes as one machine |
| `TargetGroupBindingProgress.dfy`, `TargetGroupBindingWrites.dfy` | no reconciliation is missed; status writes end |
| `TargetGroupBindingWorker.dfy` | the event handlers, the queue and one reconcile as sequential code |
| `AccessPolicy.dfy` | access entries, access policies and their bindings |
| `AccessPolicyRoles.dfy` | which role an ARN gives, and what each request replies, grants and revokes |
| `AccessPolicyLeftovers.dfy` | exactly which requests leave access behind that is no longer recorded |
| `LatestNumber.dfy` | the release search and its exact cost |

Where Go ranges over a map, the method picks the next key arbitrarily, so a contract that equates its
result with a function also says that the order is irrelevant. Loops are methods; the functions they are
equal to recurse from the end, as an appending loop grows. API calls may fail where the text says so.

## Where the code and its documentation or purpose part

Each has a proof of a concrete case and the exact condition under which the intended property holds.

- A Deny of port 2147483647 wraps `r.port + 1` to the smallest int32 and reopens its whole protocol
  (`WrapReopens`, `DenyEnforcedExactly`). Nothing in the code limits ports to 1..65535.
- A policy that denies every TCP and UDP port to everyone compiles to no policy at all and leaves the
  namespace unrestricted (`DenyAllIsDropped`, `NothingEmittedExactly`).
  Both are facts about the translation function. An API server would not store a manifest with 131070
  ports, and the validation of NetworkPolicies would refuse the port numbers a wrap produces, so that the
  policy is then not created at all.
- An Allow rule that lists only peers without a namespace selector compiles to one that admits every
  namespace (`AllowRuleCollapses`, `AllowRuleFaithful`).
- Protocols other than TCP and UDP are closed as soon as anything is emitted (`SctpCloses`,
  `OtherProtocolsClosed`).
- A Deny rule without ports is dropped without a report, although omitted ports mean every port and the
  comment on the translation promises a report of what it leaves out (`PortlessDenyIsSilent`,
  `SilentExactly`, `OmittedPortsExactly`). So is a rule without an action (`OtherActionsIgnored`).
- The same comment says that combining several ClusterNetworkPolicies is reported; nothing reports it.
  NetworkPolicies add up, and two policies that deny different ports open each other's
  (`DenyPoliciesCancel`, `ClosedStaysClosedExactly`).
- A reconcile pass deletes by name, so it deletes a policy of somebody else that replaced an orphan after
  the listing (`DeleteHitsReplacement`, `OverwritesExactly`).
- A reconcile pass that fails to list a cache forgets the wake-up that started it (`AbortLosesWakeUp`,
  reached in a run by `AbortLosesWakeUpInRun`; `WakeUp.StepKeeps`).
- Two pairs of namespace and service account can share a registry key, and registering one displaces the
  other; the facade does not check for dots (`PodIdentityKeysCollide`, `PodIdentityKeysExactly`,
  `PutDisplacesExactly`). The comment on `podIdentityKey` argues from both names; it is enough that the
  namespaces have no dot (`PodIdentityKeyInjective`).
- The injector's patch does not apply to a pod without a spec that needs the token volume, nor to one with
  a null among its containers (`BarePodFails`, `PatchAppliesExactly`). The comment on `buildInjectionPatch`
  promises a nil patch for a request without an object; when options are selected the code returns an error
  (`BuildInjectionPatch`).
- Changing the service-name label of an EndpointSlice leaves the bindings of the service it left without a
  reconcile, because the handler sees only the new object (`RelabelMisses`, `RelabelExactly`).
- Narrowing an access policy, and deleting or re-creating an entry that has policies, leaves bindings in
  force that nothing recorded calls for (`NarrowingKeepsAccess`, `ViewerIsAdmin`, `RequestTightExactly`).
- Two recorded ARNs with the same last path element share their bindings, so disassociating one takes away
  the other (`SharedRoleLosesAccess`, `TrailingSlashSharesRole`, `DisassociateKeepsExactly`).

## Model

| member | source | states |
|---|---|---|
| `ClusterNetworkPolicies.TranslateClusterNetworkPolicy` | internal/agent/clusternetworkpolicy.go:143-190 | the compiled policy and its reports are the same function of the input for every map iteration order; TranslationAdmits and ReportsExactly say what they mean |
| `ClusterNetworkPolicies.TranslateAllowRule` | internal/agent/clusternetworkpolicy.go:195-250 | an Allow rule's peers, ports and reports |
| `ClusterNetworkPolicies.RestrictedPorts` | internal/agent/clusternetworkpolicy.go:268-332 | per protocol, exactly the keys that one Deny occurrence claims, in ascending order, and the conflict and shape reports, whatever the map order; SupportedExactly and SurvivorIsSole say which Deny rules give occurrences |
| `ClusterNetworkPolicies.RestrictionsSpec` | internal/agent/clusternetworkpolicy.go:268-332 | the surviving restrictions of a protocol are ascending, and a restriction is among them iff it is the sole occurrence of its key |
| `ClusterNetworkPolicies.RestrictedAllowRules` | internal/agent/clusternetworkpolicy.go:380-397 | the exceptions of the restrictions, TCP before UDP |
| `ClusterNetworkPolicies.ComplementRules` | internal/agent/clusternetworkpolicy.go:406-430 | the open port ranges of both protocols, and none when nothing is restricted |
| `ClusterNetworkPolicies.ComplementRulesForProtocol` | internal/agent/clusternetworkpolicy.go:436-455 | the loop over `next` with int32 wrap-around yields the gaps between the restricted ports |
| `ClusterNetworkPolicyMeaning.ComplementExact` | internal/agent/clusternetworkpolicy.go:436-473 | for valid ascending ports the ranges are non-empty, inside 1..65535, ascending, disjoint, maximal, at most n+1, cover exactly the unrestricted ports, and `next` stays within 65536 |
| `ClusterNetworkPolicyMeaning.AllowRuleFaithful` | internal/agent/clusternetworkpolicy.go:195-250 | a compiled Allow rule admits exactly what the rule names, iff it lists no peers or one with a namespace selector |
| `ClusterNetworkPolicyMeaning.AllowRuleCollapses` | internal/agent/clusternetworkpolicy.go:209-229 | a rule of pod-only peers admits traffic it does not name |
| `ClusterNetworkPolicyMeaning.SupportedExactly` | internal/agent/clusternetworkpolicy.go:338-368 | a Deny rule is supported iff its `from` is empty or is one NotIn selector with values; any other is rejected, and for which reason |
| `ClusterNetworkPolicyMeaning.SurvivorIsSole` | internal/agent/clusternetworkpolicy.go:268-332 | a restriction survives iff exactly one translatable Deny occurrence claims its port |
| `ClusterNetworkPolicyMeaning.TranslationAdmits` | internal/agent/clusternetworkpolicy.go:143-473 | the verdict of every translation on TCP and UDP, with no hypothesis on the policy |
| `ClusterNetworkPolicyMeaning.OtherProtocolsClosed` | internal/agent/clusternetworkpolicy.go:371-430 | the verdict on every other protocol |
| `ClusterNetworkPolicyMeaning.MeaningPreserved` | internal/agent/clusternetworkpolicy.go:143-473 | a connection passes iff an Allow rule names it or no surviving Deny port does, where the Deny rules that count are those with an empty `from` or one NotIn selector; Deny rules without ports mean nothing in this reading |
| `ClusterNetworkPolicyLimits.MeaningPreservedForValidPorts` | internal/agent/clusternetworkpolicy.go:143-190 | for valid ports and supported peers, that meaning is preserved iff there is an Allow rule or some port stays open to someone |
| `ClusterNetworkPolicyLimits.MeaningLostExactly` | internal/agent/clusternetworkpolicy.go:143-473 | with a surviving restriction, whatever the ports and peers, nothing that should pass is kept out, and a denied connection passes iff nothing is emitted, an Allow rule lost its peers, or the ports wrap |
| `ClusterNetworkPolicyLimits.OnlyListedPass` | internal/agent/clusternetworkpolicy.go:338-455 | denying one TCP port to the namespaces whose label has none of the values leaves it open to those with one of them and to nobody else, and every other port open |
| `ClusterNetworkPolicyLimits.OmittedPortsExactly` | internal/agent/clusternetworkpolicy.go:232-237 | with omitted Deny ports read as every port, meaning is preserved iff the Deny rules without ports deny nothing that is not denied or allowed anyway |
| `ClusterNetworkPolicyLimits.DenyEnforcedExactly` | internal/agent/clusternetworkpolicy.go:436-455 | a protocol's restrictions are enforced iff none survives at 2147483647, or none at a valid port |
| `ClusterNetworkPolicyLimits.WrapReopens` | internal/agent/clusternetworkpolicy.go:446-446 | denying TCP 22 and 2147483647 leaves TCP 22 open |
| `ClusterNetworkPolicyLimits.NothingEmittedExactly` | internal/agent/clusternetworkpolicy.go:170-176 | for any ports, no policy results iff there is no Allow rule and no restriction survives, or in both protocols the surviving ports are consecutive from 1 or below to 65535 or above, without 2147483647 and without exceptions |
| `ClusterNetworkPolicyLimits.NothingEmittedForValidPorts` | internal/agent/clusternetworkpolicy.go:170-176 | for valid ports, iff there is no Allow rule and no restriction survives or every port is closed to everyone |
| `ClusterNetworkPolicyLimits.DenyAllIsDropped` | internal/agent/clusternetworkpolicy.go:170-176 | a rule denying all 131070 TCP and UDP ports lets everything through |
| `ClusterNetworkPolicyLimits.SctpCloses` | internal/agent/clusternetworkpolicy.go:371-430 | denying TCP 22 closes SCTP 9 |
| `ClusterNetworkPolicyCanonical.DenyAccounted` | internal/agent/clusternetworkpolicy.go:268-368 | every port a Deny rule lists becomes the one restriction of its port or is reported for its shape, protocol or conflict; conflicts are reported only where there is one |
| `ClusterNetworkPolicyCanonical.ReportsExactly` | internal/agent/clusternetworkpolicy.go:143-368 | what is reported, and nothing else: a pod subject, each egress rule, Allow rules that lose a peer, Deny rules that cannot be turned around, protocols other than TCP and UDP, contested ports |
| `ClusterNetworkPolicyCanonical.SilentExactly` | internal/agent/clusternetworkpolicy.go:268-304 | a Deny rule leaves neither a restriction nor a report iff its shape is supported and it omits its ports |
| `ClusterNetworkPolicyCanonical.PortlessDenyIsSilent` | internal/agent/clusternetworkpolicy.go:137-143 | denying everyone on every port this way yields no policy and no report |
| `ClusterNetworkPolicyCanonical.OtherActionsIgnored` | internal/agent/clusternetworkpolicy.go:155-162 | a rule with neither action changes neither the policy nor the reports |
| `ClusterNetworkPolicyCanonical.AllowPeerAccounted` | internal/agent/clusternetworkpolicy.go:209-229 | every Allow peer is kept or reported |
| `ClusterNetworkPolicyCanonical.ConflictExactly` | internal/agent/clusternetworkpolicy.go:300-318 | a conflict report iff a key has more than one translatable occurrence |
| `ClusterNetworkPolicyCanonical.TranslationCanonical` | internal/agent/clusternetworkpolicy.go:143-190 | permuting the Deny rules leaves the policy identical and the reports the same |
| `CNPController.NetworkPolicyApi.ListManaged` | internal/agent/cnpcontroller.go:134-158 | exactly the managed policies, in any order, or a failure |
| `CNPController.Controller.Create` | internal/agent/cnpcontroller.go:408-418 | creates the policy; one already present counts as done and is left alone |
| `CNPController.Controller.Update` | internal/agent/cnpcontroller.go:423-440 | brings spec, owners and labels of the object as listed, failing when that is no longer what is stored; writes nothing when they are right already |
| `CNPController.Controller.ApplyOne` | internal/agent/cnpcontroller.go:377-391 | one desired key, whatever others have written since the listing |
| `CNPController.Controller.Delete` | internal/agent/cnpcontroller.go:444-455 | deletes the policy; one already gone counts as done |
| `CNPController.Controller.Apply` | internal/agent/cnpcontroller.go:370-403 | undisturbed by other writers and in any map order, success reaches the reconciled state, failure leaves each key as before or as reconciled, and nothing is written when nothing differs |
| `CNPController.Controller.Reconcile` | internal/agent/cnpcontroller.go:134-158 | an undisturbed pass over cached objects: its error, its end state, and that unmanaged policies are never touched |
| `CNPController.ReconciledMeans` | internal/agent/cnpcontroller.go:370-455 | the reconciled state leaves unmanaged policies alone, carries every desired key no unmanaged policy occupies, has no other managed policy, and keeps the annotations of what was there |
| `CNPController.ReconciledTwice` | internal/agent/cnpcontroller.go:370-440 | a second pass has nothing to change |
| `CNPController.ConvergedExactly` | internal/agent/cnpcontroller.go:370-440 | a pass changes nothing iff every desired key is right and no managed policy is an orphan |
| `CNPController.DesiredNetworkPolicies` | internal/agent/cnpcontroller.go:318-349 | one policy per selected namespace and ClusterNetworkPolicy that translates to one, under distinct keys; fails iff a selector does not parse |
| `CNPController.SelectedExactly` | internal/agent/cnpcontroller.go:295-306 | no selector selects no namespace, an empty one every namespace, and a selector fails iff some requirement has values where it takes none or none where it takes some |
| `CNPController.NamesInjective` | internal/agent/clusternetworkpolicy.go:118-120 | policy names tell ClusterNetworkPolicies apart |
| `CNPController.PassEnforces` | internal/agent/cnpcontroller.go:134-158 | after a successful pass the stored policy, taken alone, gives the translation's verdict unless an unmanaged one holds its key |
| `CNPController.StoredIsOwned` | internal/agent/cnpcontroller.go:318-363 | every managed policy a successful pass leaves is named after, owned by and translated from a ClusterNetworkPolicy that selects its namespace, and applies to the ingress of every pod |
| `CNPRaces.RaceReconciles` | internal/agent/cnpcontroller.go:370-403 | with other writers interleaved in any way, a completed pass leaves every key they did not touch reconciled |
| `CNPRaces.RunUndisturbed` | internal/agent/cnpcontroller.go:370-403 | so does every unfinished pass, for the keys it has dealt with |
| `CNPRaces.OverwritesExactly` | internal/agent/cnpcontroller.go:408-455 | a call of the pass changes an unmanaged policy iff it is a deletion |
| `CNPRaces.DeleteHitsReplacement` | internal/agent/cnpcontroller.go:444-455 | an orphan replaced by somebody else's policy after the listing takes that policy with it |
| `NamespaceVerdicts.NamespaceAfterPass` | internal/agent/cnpcontroller.go:318-403 | after a pass a namespace admits what one of its translations or somebody else's policy admits, or everything when none isolates the pod |
| `NamespaceVerdicts.ClosedStaysClosedExactly` | internal/agent/clusternetworkpolicy.go:137-143 | what one policy keeps closed stays closed iff no other policy of the namespace opens it |
| `NamespaceVerdicts.DenyPoliciesCancel` | internal/agent/clusternetworkpolicy.go:137-143 | two policies that each deny one port admit both ports together |
| `WakeUp.StepKeeps` | internal/agent/cnpcontroller.go:97-158 | each step keeps every newer cache noticed, except exactly the abort that leaves one unread with nothing pending |
| `WakeUp.RunKeeps` | internal/agent/cnpcontroller.go:97-158 | coalesced wake-ups are never lost, in any interleaving |
| `WakeUp.QuiescentIsCurrent` | internal/agent/loadbalancercontroller.go:87-143 | at rest, the last reads found the final caches |
| `WakeUp.WorkShrinks` | internal/agent/cnpcontroller.go:108-131 | without cache updates every step uses up work |
| `WakeUp.RestIsQuiescent` | internal/agent/cnpcontroller.go:108-131 | no work left iff at rest, and otherwise some step can be taken |
| `WakeUp.AbortLosesWakeUp` | internal/agent/cnpcontroller.go:134-150 | a failed list loses an update of a later cache |
| `WakeUp.AbortLosesWakeUpInRun` | internal/agent/cnpcontroller.go:97-150 | the same, reached from the start of Run |
| `OptimisticStore.StepKeeps` | internal/agent/store.go:119-337 | every step of every client keeps the protocol's invariant |
| `OptimisticStore.UpdateExactly` | internal/agent/store.go:119-152 | an update commits iff nobody has written since the read; otherwise it writes nothing and starts over, or gives up after the fifth attempt |
| `OptimisticStore.Linearizable` | internal/agent/store.go:119-337 | the stored data is the fold of the logged operations, and every successful or not-found call is logged once between its invocation and its return |
| `OptimisticStore.ExactlyOnce` | internal/agent/store.go:125-150 | success committed exactly one update, giving up committed none |
| `OptimisticStore.RealTimeOrder` | internal/agent/store.go:119-225 | calls that do not overlap take effect in the order they were made |
| `OptimisticStore.UndisturbedReturns` | internal/agent/store.go:119-224 | a call that nobody disturbs returns from its first attempt, with success and its edit of what was stored, or with not-found |
| `OptimisticStore.GivesUpOnlyOvertaken` | internal/agent/store.go:119-224 | a call that gave up was overtaken: at least five other operations committed between its invocation and its return |
| `OptimisticStore.AtMostFive` | internal/agent/store.go:119-224 | no call tries to write more than five times, and one that gave up tried exactly five times |
| `Registries.EditKeepsNames` | internal/agent/store.go:119-225 | one Put or Delete keeps keys equal to access key IDs and names unique |
| `Registries.PutExact` | internal/agent/store.go:353-366 | Put replaces what is under its access key ID or has its name, and keeps every other principal |
| `Registries.DeleteExact` | internal/agent/store.go:411-424 | Delete takes the principals of the name, misses iff there is none, and keeps every other principal |
| `Registries.NamesStayUnique` | internal/agent/store.go:119-266 | names stay unique in every reachable state under concurrent Put and Delete |
| `Registries.StoredExactly` | internal/agent/store.go:353-424 | a log of operations leaves exactly the principals that were put and not displaced since by a Put of their key or name or a Delete of their name |
| `Registries.StoredExactlyInRuns` | internal/agent/store.go:119-224 | the same for the stored Secret in every interleaving of clients |
| `Registries.PutResolves` | internal/agent/store.go:119-150 | after a Put the name resolves to the new access key ID alone, other names as before |
| `Registries.InMemoryPrincipalStore.Put` | internal/agent/store.go:353-366 | the edit a Put log entry stands for: the principal, and every principal of another name and key |
| `Registries.InMemoryPrincipalStore.Delete` | internal/agent/store.go:411-424 | succeeds iff the name is there; what is left is every principal of another name |
| `Registries.InMemoryPrincipalStore.GetByName` | internal/agent/store.go:382-393 | the only principal of that name |
| `Registries.DropRenamed` | internal/agent/store.go:126-143 | drops every other key of the principal's name, in any map order |
| `Registries.FindByName` | internal/agent/store.go:253-266 | a key of that name, or none iff there is none |
| `Registries.SecretPrincipalStore.GetSecret` | internal/agent/store.go:270-281 | the first API call of an attempt, as a step of the machine |
| `Registries.SecretPrincipalStore.GetOrCreateSecret` | internal/agent/store.go:285-303 | read, or create and on a lost race read the winner's |
| `Registries.SecretPrincipalStore.CreateSecret` | internal/agent/store.go:308-327 | a lost create race always finds the winner's Secret |
| `Registries.SecretPrincipalStore.UpdateSecret` | internal/agent/store.go:331-337 | the conditional update: conflict iff the version moved on |
| `Registries.SecretPrincipalStore.Put` | internal/agent/store.go:119-150 | the program's retries are one call of the machine with the outcome returned |
| `Registries.SecretPrincipalStore.Delete` | internal/agent/store.go:202-225 | the program's retries are one call of the machine, whose log entry DeleteExact spells out, with the outcome returned |
| `Registries.ReturnedMeans` | internal/agent/store.go:125-150 | what a caller learns from an outcome: one commit inside the call, or none |
| `Registries.PodIdentityKeysExactly` | internal/agent/store.go:486-488 | two pairs share a key iff they are the same or one namespace is the other plus a dot and a first part of its service account |
| `Registries.PodIdentityKeyInjective` | internal/agent/store.go:486-488 | a key names one pair when namespaces have no dot |
| `Registries.PodIdentityKeysCollide` | internal/agent/facade.go:93-122 | ("a", "b.c") and ("a.b", "c") share a key and displace each other |
| `Registries.PutDisplacesExactly` | internal/agent/store.go:509-531 | registering a pair displaces another pair's association iff they collide |
| `Registries.AssociationEditExact` | internal/agent/store.go:509-595 | registering or deleting a pair changes what is under its own key and nothing else |
| `Registries.AssociatedExactly` | internal/agent/store.go:509-595 | a log leaves exactly the associations put last under their key |
| `Registries.AssociationsStayKeyed` | internal/agent/store.go:509-596 | after any log of operations each association sits under its own pair's key |
| `Registries.AssociationsKeyedInRuns` | internal/agent/store.go:509-596 | the same in every interleaving of clients |
| `Registries.LookupIsExact` | internal/agent/store.go:535-552 | a lookup finds the pair's association iff one is stored, and otherwise nothing or that of a colliding pair |
| `Registries.EntryEditRefines` | internal/agent/accessentry.go:141-222 | with a digest that tells principals apart, a ConfigMap operation does what the in-memory store does |
| `Registries.InMemoryEditExact` | internal/agent/accessentry.go:331-380 | an operation on an access entry changes its own principal's and no other |
| `Registries.EntryReplayRefines` | internal/agent/accessentry.go:331-380 | so does a whole log |
| `Registries.EnteredExactly` | internal/agent/accessentry.go:331-380 | a log leaves exactly the entries put last for their principal |
| `Registries.EntriesRefineInRuns` | internal/agent/accessentry.go:141-315 | in every interleaving the ConfigMap holds what the in-memory store would after the same operations |
| `Registries.EnteredExactlyInRuns` | internal/agent/accessentry.go:141-222 | in every interleaving the ConfigMap holds an entry of a known principal iff it was put last for it |
| `JsonPatch.TokensConcat` | internal/agent/injector.go:381-393 | a prefixed pointer addresses the part's pointer inside the part (RFC 6901, section 3) |
| `JsonPatch.TokensEscaped` | internal/agent/injector.go:381-393 | any token, escaped, can be appended to a pointer and reads back (RFC 6901, sections 3 and 4) |
| `JsonPatch.DecimalIsIndex` | internal/agent/injector.go:381-393 | the printed container index is the array index it reads back as (RFC 6901, section 4) |
| `JsonPatch.IndexExactly` | internal/agent/injector.go:381-393 | a token is the array index n iff it is n's decimal digits (RFC 6901, section 4) |
| `JsonPatch.AddAtParent` | internal/agent/injector.go:377-393 | an add succeeds iff its parent resolves and accepts it, and afterwards the parent is what adding to it directly gives (RFC 6902, section 4.1) |
| `JsonPatch.AddToArray` | internal/agent/injector.go:377-393 | an add to an array shifts the elements from its index on and loses none (RFC 6902, section 4.1) |
| `JsonPatch.LiftPatch` | internal/agent/injector.go:361-397 | a patch of a part, addressed from the whole, changes that part and nothing else |
| `JsonPatch.PreservingMeans` | internal/agent/injector.go:353-360 | a patch that applies without discarding applies, and no operation of it replaces a non-empty member |
| `JsonPatch.OverwritesExactly` | internal/agent/injector.go:353-360 | what counts as discarding: the target is a member with content, or the whole document |
| `Injector.VarsToAdd` | internal/agent/injector.go:365-371 | the desired variables a container lacks, in order |
| `Injector.HasName` | internal/agent/injector.go:400-408 | whether a name is defined |
| `Injector.PodDecodesExactly` | internal/agent/injector.go:519-531 | exactly the documents of a pod's shape decode |
| `Injector.AddEnvOps` | internal/agent/injector.go:377-393 | one array for a container without variables, else one append each |
| `Injector.ContainerEnvPatchOps` | internal/agent/injector.go:361-397 | the operations of the variable pass over a list of containers |
| `Injector.ContainerVolumeMountPatchOps` | internal/agent/injector.go:461-493 | the operations of the mount pass |
| `Injector.PodIdentityVolumePatchOps` | internal/agent/injector.go:414-425 | the volume operation and both mount passes |
| `InjectorPatch.ListOpsAppend` | internal/agent/injector.go:377-393 | the operations for a list append exactly the given elements, whether the list is missing, null, empty or not |
| `InjectorPatch.PatchInjects` | internal/agent/injector.go:281-493 | applied in order the patch gives exactly the injected pod, and no operation fails or discards anything |
| `InjectorEffects.PatchAppliesExactly` | internal/agent/injector.go:281-493 | the patch applies iff the pod has a spec where the volume needs one and no null container |
| `InjectorEffects.BarePodFails` | internal/agent/injector.go:430-455 | a pod without a spec gets a patch that does not apply |
| `InjectorEffects.ContainerInjected` | internal/agent/injector.go:361-397 | a container's names become the old ones followed by exactly the missing ones, and the token is mounted unless its name is |
| `InjectorEffects.AddedOnce` | internal/agent/injector.go:318-397 | a variable already there is never added again and a missing one is added once |
| `InjectorEffects.DesiredDistinct` | internal/agent/injector.go:318-351 | no options select a name twice |
| `InjectorEffects.PodInjected` | internal/agent/injector.go:281-493 | the names of the whole injected pod |
| `InjectorEffects.PatchIdempotent` | internal/agent/injector.go:281-312 | for the patched pod the same options give no operations |
| `InjectorEffects.OthersUnchanged` | internal/agent/injector.go:281-493 | every other member of the pod and of its spec is unchanged |
| `InjectorEffects.ContainerOthersUnchanged` | internal/agent/injector.go:361-493 | every other member of a container is unchanged |
| `InjectorEffects.ElementsKept` | internal/agent/injector.go:361-493 | existing variables and mounts stay in front, untouched |
| `InjectorValues.DesiredExactly` | internal/agent/injector.go:318-351 | which variable is asked for with which value, name by name |
| `InjectorValues.MissingByParts` | internal/agent/injector.go:365-371 | the missing variables keep the order of the desired ones |
| `InjectorValues.PatchedVariable` | internal/agent/injector.go:281-397 | in the patched pod a container that did not define a name has it iff the options ask for it, and then with the value they ask for |
| `InjectorValues.TokenFound` | internal/agent/injector.go:336-493 | in the patched pod the token file a variable names is the added volume's file below the added read-only mount |
| `InjectorEffects.CollectEnvVars` | internal/agent/injector.go:318-351 | the selected variables in their order; DesiredExactly gives their values |
| `InjectorEffects.BuildInjectionPatch` | internal/agent/injector.go:281-312 | when it errs, when it sends no patch, and that what it sends makes the pod the injected one, whose variables PatchedVariable spells out |
| `Sorting.SortInPlace` | internal/agent/targetgroupbinding.go:327-335 | the in-place sort leaves the sorted permutation |
| `Sorting.SortCanonical` | internal/agent/targetgroupbinding.go:327-335 | sorting by a strict total order forgets the input's order |
| `TargetGroupBindings.TargetsOrdered` | internal/agent/targetgroupbinding.go:327-335 | address then port is a strict total order |
| `TargetGroupBindings.TargetLessExactly` | internal/agent/targetgroupbinding.go:327-335 | one target precedes another iff its address ends or is smaller at the first difference, or at one address its port is smaller |
| `TargetGroupBindings.FirstDecides` | internal/agent/targetgroupbinding.go:146-158 | the port found is the first the reference identifies |
| `TargetGroupBindings.FindPortExactly` | internal/agent/targetgroupbinding.go:146-158 | a port is found iff the reference is some port's name or number, and it is the first such port |
| `TargetGroupBindings.ResolveServicePort` | internal/agent/targetgroupbinding.go:146-158 | that port, or not-found |
| `TargetGroupBindings.SlicePortExactly` | internal/agent/targetgroupbinding.go:295-314 | a slice gives a name the number n iff the first of its ports that carries the name carries n |
| `TargetGroupBindings.EndpointSlicePort` | internal/agent/targetgroupbinding.go:295-314 | the number of the first port that carries the name, by position |
| `TargetGroupBindings.ResolveIPTargets` | internal/agent/targetgroupbinding.go:213-243 | the ready addresses slice by slice, or its two errors in order; IPTargetsExact spells them out |
| `TargetGroupBindings.ResolveInstanceTargets` | internal/agent/targetgroupbinding.go:254-288 | the distinct node addresses at the nodePort, or its two errors in order |
| `TargetGroupBindings.NodeAddressOf` | internal/agent/loadbalancercontroller.go:255-269 | the first InternalIP, else the first non-empty ExternalIP, else none |
| `TargetGroupBindings.AddressOfExactly` | internal/agent/loadbalancercontroller.go:255-269 | a node's address by position: its first InternalIP, else its first non-empty ExternalIP, else none |
| `TargetGroupBindings.CollectAddresses` | internal/agent/targetgroupbinding.go:271-285 | the loop with its `seen` set keeps each address where it first occurs |
| `TargetGroupBindings.AddressesExact` | internal/agent/targetgroupbinding.go:271-285 | an address is collected iff it is some node's and not empty |
| `TargetGroupBindings.ResolveTargets` | internal/agent/targetgroupbinding.go:179-201 | the sorted resolution, and the target type with "ip" for an empty one |
| `TargetGroupBindings.IPTargetsExact` | internal/agent/targetgroupbinding.go:213-243 | every type but "instance" yields, sorted, each address of an endpoint not marked as not ready, at the number of the slice's first port named like the first service port referred to, as often as it is offered; and when it errs how |
| `TargetGroupBindings.InstanceTargetsExact` | internal/agent/targetgroupbinding.go:254-288 | instance targets are strictly ascending, one per distinct node address at the nodePort of the first port referred to, none when it is 0; and when it errs how |
| `TargetGroupBindings.ResolvedCanonical` | internal/agent/targetgroupbinding.go:179-335 | permuting slices, endpoints, addresses or nodes does not change the result |
| `TargetGroupBindings.DesiredIngress` | internal/agent/loadbalancercontroller.go:224-251 | the sorted distinct node addresses |
| `TargetGroupBindings.IngressCanonical` | internal/agent/loadbalancercontroller.go:224-251 | one entry per distinct address, whatever the order of the nodes |
| `TargetGroupBindingControllers.DesiredAnyOrder` | internal/agent/targetgroupbindingcontroller.go:352-366 | the status wanted does not depend on the listers' order |
| `TargetGroupBindingControllers.DesiredMeans` | internal/agent/targetgroupbindingcontroller.go:318-378 | the status wanted, read off the caches: generation, target type, and the targets that the slices of the service in the binding's namespace offer or the nodes have |
| `TargetGroupBindingProgress.StepKeeps` | internal/agent/targetgroupbindingcontroller.go:123-417 | every step of informers, handlers, queue and workers keeps every binding covered |
| `TargetGroupBindingProgress.NoMissedReconciliation` | internal/agent/targetgroupbindingcontroller.go:123-417 | in every reachable state each binding has a change or notification pending, is queued or to be retried, has an up-to-date worker, or is settled |
| `TargetGroupBindingProgress.QuiescentIsSettled` | internal/agent/targetgroupbindingcontroller.go:123-417 | with nothing left to do every status is what the current caches give, or they do not resolve |
| `TargetGroupBindingProgress.RelabelUnnoticed` | internal/agent/targetgroupbindingcontroller.go:140-146 | after a relabelling at rest, a binding of the old service is covered iff it happens to be settled |
| `TargetGroupBindingProgress.RelabelExactly` | internal/agent/targetgroupbindingcontroller.go:140-146 | a relabelling at rest misses no binding iff every binding of the service the slice leaves is settled against the new slices |
| `TargetGroupBindingProgress.RelabelMisses` | internal/agent/targetgroupbindingcontroller.go:192-204 | a concrete relabelling leaves a stale target for good |
| `TargetGroupBindingWrites.OwnWriteIsFinal` | internal/agent/targetgroupbindingcontroller.go:388-417 | the reconcile a write triggers writes nothing when what it reads is unchanged |
| `TargetGroupBindingWrites.StatusWritesEnd` | internal/agent/targetgroupbindingcontroller.go:388-417 | a binding's status is written at most once more than there were changes from outside |
| `TargetGroupBindingWorker.WorkQueue.Add` | internal/agent/targetgroupbindingcontroller.go:163-170 | a key is queued once however often it is added |
| `TargetGroupBindingWorker.WorkQueue.Get` | internal/agent/targetgroupbindingcontroller.go:297-300 | a key no worker holds |
| `TargetGroupBindingWorker.WorkQueue.Done` | internal/agent/targetgroupbindingcontroller.go:309-309 | a key added meanwhile is queued again |
| `TargetGroupBindingWorker.EnqueueForServiceName` | internal/agent/targetgroupbindingcontroller.go:211-233 | exactly the bindings that reference the service |
| `TargetGroupBindingWorker.EnqueueForEndpointSlice` | internal/agent/targetgroupbindingcontroller.go:192-204 | those of the label's service, none without a label |
| `TargetGroupBindingWorker.EnqueueAll` | internal/agent/targetgroupbindingcontroller.go:243-254 | every binding |
| `TargetGroupBindingWorker.Handle` | internal/agent/targetgroupbindingcontroller.go:123-157 | each handler adds exactly the keys its event affects in the machine |
| `TargetGroupBindingWorker.WriteStatus` | internal/agent/targetgroupbindingcontroller.go:388-417 | no write for an equal status, a conditional write otherwise |
| `TargetGroupBindingWorker.Reconcile` | internal/agent/targetgroupbindingcontroller.go:318-378 | an error leaves the server alone; success leaves the desired status, or nothing to do |
| `AccessPolicies.RoleOfPath` | internal/agent/facade.go:624-637 | a policy's role is that of its last path element, whatever path leads to it; StandardRole names the roles |
| `AccessPolicies.BindingNameDetermines` | internal/agent/facade.go:682-684 | a binding's name determines the digest and the role |
| `AccessPolicies.Facade.HandleCreateAccessEntry` | internal/agent/facade.go:333-361 | reply and new state |
| `AccessPolicies.Facade.HandleDeleteAccessEntry` | internal/agent/facade.go:393-415 | reply and new state; bindings stay |
| `AccessPolicies.Facade.HandleAssociateAccessPolicy` | internal/agent/facade.go:441-493 | reply in the order of the checks, and new state; AssociateReplies and AssociateGrants spell them out |
| `AccessPolicies.Facade.HandleDisassociateAccessPolicy` | internal/agent/facade.go:567-618 | reply in the order of the checks, and new state |
| `AccessPolicies.Facade.Materialize` | internal/agent/facade.go:690-705 | creates one binding or one per namespace; existing ones stay as they are |
| `AccessPolicies.Facade.Remove` | internal/agent/facade.go:710-724 | deletes exactly those |
| `AccessPolicies.UpsertAssociatedPolicy` | internal/agent/facade.go:641-651 | replaces in place or appends |
| `AccessPolicies.UpsertedExact` | internal/agent/facade.go:641-651 | keeps ARNs distinct, adds the policy and drops only its namesake |
| `AccessPolicies.FindAssociatedPolicy` | internal/agent/facade.go:654-662 | the first policy of the ARN |
| `AccessPolicies.RemoveAssociatedPolicy` | internal/agent/facade.go:665-675 | the policies of other ARNs, in order |
| `AccessPolicies.DisassociateKeepsExactly` | internal/agent/facade.go:567-618 | disassociating keeps the invariant iff no other recorded policy shares a binding |
| `AccessPolicies.RunKeepsInvariant` | internal/agent/facade.go:333-724 | over every sequential run with standard ARNs: distinct ARNs, every recorded policy has all its bindings, every binding has the role and group of its name |
| `AccessPolicies.DisassociateUndoes` | internal/agent/facade.go:441-618 | associate then disassociate restores everything when there was no record and no binding |
| `AccessPolicies.RecordedHolds` | internal/agent/accessentry.go:78-87 | a recorded policy is in force in each of its scopes through the principal's effective groups |
| `AccessPolicyRoles.ClusterRoleExactly` | internal/agent/facade.go:624-637 | an ARN gives a role iff its last path element is the policy that stands for it; every other ARN gives none |
| `AccessPolicyRoles.StandardRole` | internal/agent/facade.go:624-637 | the four standard ARNs and their roles, by name |
| `AccessPolicyRoles.AssociateReplies` | internal/agent/facade.go:441-532 | exactly when associating is refused and as what |
| `AccessPolicyRoles.DisassociateReplies` | internal/agent/facade.go:567-606 | exactly when disassociating is refused as invalid, and when it is done |
| `AccessPolicyRoles.AssociateGrants` | internal/agent/facade.go:441-493 | after associating, the principal holds the policy's role and no other through the role's binding in each place of the scope, and every other binding is as it was |
| `AccessPolicyRoles.DisassociateRevokes` | internal/agent/facade.go:567-618 | disassociating deletes the policy's bindings and record and nothing else |
| `AccessPolicyRoles.CreateReplaces` | internal/agent/facade.go:333-361 | creating an entry forgets what was recorded for the principal, gives it the groups asked for and no other, and touches nobody else |
| `AccessPolicyRoles.DeleteForgets` | internal/agent/facade.go:393-415 | deleting an entry leaves every binding and every other entry |
| `AccessPolicyRoles.GroupsExactly` | internal/agent/accessentry.go:78-87 | a principal's groups are its entry's, and its own once a policy is recorded |
| `AccessPolicyLeftovers.HoldsExactly` | internal/agent/accessentry.go:78-87 | in a tight store the principal holds a role through a binding of its name iff a recorded policy calls for the binding |
| `AccessPolicyLeftovers.AssociateTightExactly` | internal/agent/facade.go:441-493 | associating leaves no more than is recorded iff the policy was not recorded or the new scope covers the old |
| `AccessPolicyLeftovers.ForgettingTightExactly` | internal/agent/facade.go:333-415 | creating over an entry or deleting it leaves no more than is recorded iff no policy was recorded |
| `AccessPolicyLeftovers.DisassociateStaysTight` | internal/agent/facade.go:567-618 | disassociating never leaves more than is recorded |
| `AccessPolicyLeftovers.RequestTightExactly` | internal/agent/facade.go:333-618 | the exact condition for every request |
| `AccessPolicyLeftovers.CleanRunsStayTight` | internal/agent/facade.go:333-724 | runs of requests that meet it leave exactly the recorded access |
| `AccessPolicyLeftovers.ViewerIsAdmin` | internal/agent/facade.go:393-415 | after deleting and re-creating an administrator's entry as a viewer, the principal is an administrator |
| `AccessPolicyLeftovers.NarrowingKeepsAccess` | internal/agent/facade.go:690-705 | re-scoping leaves the wider access in force |
| `AccessPolicyLeftovers.SharedRoleLosesAccess` | internal/agent/facade.go:624-637 | two recorded ARNs of one role break the invariant when one is disassociated |
| `AccessPolicyLeftovers.TrailingSlashSharesRole` | internal/agent/facade.go:624-637 | such ARNs exist |
| `LatestNumber.LatestNumber` | internal/eksd/fetch.go:91-133 | the newest release with exactly 2*floor(log2 N)+2 probes; for any probe, a boundary or its error |

## Left out

- Go's decoding of JSON: encodings are taken as lossless. Member names matched regardless of case, duplicate members, and members of the wrong type that the injector does not look at are not modelled; stored entries that do not decode are not modelled.
- An API call that took effect although it reported an error; client retries inside the Kubernetes client.
- Periodic resyncs of the two channel-driven controllers: they only add wake-ups. The choice of when a retry fires, back-off and rate limits.
- Egress rules, pod subjects and tiers of a ClusterNetworkPolicy beyond their reports, because the code does no more with them; rule order and priority, which the code ignores.
- Label selector syntax beyond the arity of a requirement's values.
- injectionOptionsFor: the lookups of the ServiceAccount and its association that select the options; reading the branches settles it.
- The status write of the LoadBalancer controller (reconcileService), the clean-up of legacy mirror Services, bindings that do not decode: a single branch each.
- The comparison of a decoded status with the desired one treats an absent status as different from every desired one, as the code's nil and empty slices do.
- Concurrent requests for one access entry and API failures inside a disassociation: the read lies outside the retry, so the invariant holds for sequential runs whose calls succeed.
- EffectiveUsername, the list handlers, and the facade's fixed responses.
- SHA-256: the digest is any function with sixteen characters that tells the principals in use apart.
- LatestNumber.LatestNumber: `high*2` is unbounded here, and Go's int would overflow only after 62 doublings; the search also trusts that releases have no gaps, and with gaps finds a boundary.
- `internal/cluster`, `internal/rask`, `internal/authn`, `internal/pki`, `internal/eksdcache`, `internal/componentdir`, `internal/imagetar`, `cli` and `cmd`: command wiring and calls into libraries.
