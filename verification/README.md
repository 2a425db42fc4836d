# Controller models for the DPU operator skeletons

The repository holds independent skeletons of Kubernetes controllers that put a vendor-neutral OPI
API in front of NVIDIA's DPF. This project models the seven files that contain real state machines,
loops and string arithmetic, and proves what they promise about every run and every input.

- **The SFC adapter** (`AdapterGates`, `AdapterCluster`, `AdapterSafety`, `AdapterProgress`,
  `AdapterEvidence`). The status gates as computations, and the whole reconciler as a state machine: each API call is one
  atomic step, every SFC key has its own worker, and users, the API server and DPF act between any
  two steps. Requests and replies may be lost and the adapter may restart anywhere.
- **The object store, the SFC translation and its reconciler, and the VSP** (`DpfStore`,
  `SfcTranslation`, `SfcReconciler`, `GarbageCollection`, `NetworkFunctions`).
- **The circuit breaker, the write-ahead log, replay and the drift report** (`CircuitBreaker`,
  `WriteAheadLog`, `NetworkPolicy`). Breaker calls are Enter and Finish steps of any number of
  callers; policy passes, crashes, reboots and the single calls of any number of replays interleave
  step by step.
- **Failure windows** (`FailureWindow`), **condition merging** (`ConditionMerge`), **name
  normalisers** and what is built with them (`Names`, `BuiltNames`), and **the intent translation**
  (`IntentTranslation`).

`Text` and `UnstructuredValues` hold what several of them need: string order, joining, trimming,
numerals, and the JSON-like values of unstructured objects.

Objects whose methods update their fields are classes; each such method is tied to a function of
its old state, and the theorems are about runs of that function. `SHA-1`, `SHA-256`, FNV, lower case,
white space and UTF-8 are function-valued parameters with the properties the results need (`Sound`,
`SoundHash`, `SoundFnv`, `SoundUtf8`, ...); `StandardPlatformIsSound`, `StandardSchemeSeparates` and
`StandardIsSound` connect the abstract parameters with what the source computes.

Assumptions: reads are linearizable; UIDs are never reused and every accepted write gets a fresh
resource version; DPF writes observedGeneration and Ready together, for a generation that exists;
users do not strip the adapter's finalizer, relabel its children or create children with its label;
the write-ahead log persists; clocks do not run backwards, and two policy passes never read the same
nanosecond; a store call that errors either has no effect or its whole effect, and ends its pass. The
API server moves an object's generation with its spec, and once when it is marked for deletion.

What the code turned out to do, where a reader might expect otherwise:

- The adapter accepts an observedGeneration that is at least the generation, while its prose speaks
  of reaching it; the model follows the code.
- A `status` that is not a map makes the status write fail silently, and then every pass writes
  again. `WriteAmplification` shows the bound holds exactly when `status` is absent or a map.
- The Equality gate is not symmetric: `EqualityGateSymmetry` says exactly when it is, and
  `EqualityGateIsNotSymmetric` gives the smallest pair on which it is not.
- Ready=True needs a non-empty observation, not one child of each kind: `ReadyOnOneChild` leads from
  every reachable state to a Ready=True written while one of the two children its pass applied is gone,
  and `WriteRestsOnWhatWasListed` says exactly what a write rests on.
- SFCs share their children exactly when they have the same name, in whatever namespaces
  (`NamesakesShareChildren`). Forced ownership moves the label, so a namesake's Patch leaves the other SFC
  without that child (`NamesakeTakesChild`); the safety results hold through that.
- The breaker is consistent only from a threshold of 1 upwards (`BreakerIsConsistent` is an
  equivalence). Its comment promises one test call while it is half-open; `HalfOpenAdmitsMany` puts any
  number of callers inside, and `ProbeIsAlone` says exactly when the probe is the only one.
- A reboot between the hardware's answer and the log mark can lose a rule that a replay with no errors
  leaves lost: `RebootBeforeMarkLosesARule` says exactly when, in every reachable state, and
  `MissingIsAlwaysStale` shows that after a whole replay nothing else can be missing. A replay call that
  errors is skipped and not made again; `ReplayRestoresTheNode` says exactly when that matters.
- The log's comment promises that operations cut short are replayed on restart. Nothing does that
  (`AbandonedStaysPending`), and a watcher that has just started replays nothing.
- A comment says a changed endpoint should not inherit the old one's failure history. It does inherit the
  ninety-second window, exactly when one was open (`EndpointInheritsWindow`), so it can be downgraded at
  once (`DowngradedAtOnce`).
- Built names and label values are not always labels: only five separators are replaced, so `a@b` stays
  as it is. `BuiltNameIsLabel` gives the exact condition, with lengths and the cut in bytes as in the
  source. Label values are not always stable either: a dash before white space hides it from the first
  round (`TabIsNotStable`); `LabelValueIsIdempotent` gives the exact condition. The last fallback of the sanitiser can never be taken (`LabelValueIsStable`).
- A name cleaned for DPF can end in a dash, exactly when the cut at 40 falls behind one
  (`CleanEndsInDash`).
- A revision of an SFC removes nothing from the store (`RevisionPrunesNothing`).
- The selector check ranges over a map, so which of several faults is reported is not determined.
- Separators inside fields make different things alike: requests with `|` (`SeparatorsCollide`), devices
  with a comma (`CommasCollide`), selector keys with `=` (`EqualsCollide`).

## Model

| member | source | states |
|---|---|---|
| AdapterGates.BuildTargetConditions | yash-pratap-singh/feature_skeleton.go:278-311 | The loops return exactly one condition, the one the relation `IsVerdict` assigns: none observed, else the first child that lags behind its own spec, else all Ready or not. |
| AdapterGates.VerdictIsUnique | yash-pratap-singh/feature_skeleton.go:274-311 | The projection is deterministic: identical observations give an identical condition. |
| AdapterGates.ReadyExactly | yash-pratap-singh/feature_skeleton.go:270-311 | Ready=True exactly when something was observed and everything observed has caught up with its spec and is Ready; the condition carries the SFC's generation. |
| AdapterGates.FirstLaggardIsNamed | yash-pratap-singh/feature_skeleton.go:287-298 | For every observation with a child that lags behind its own spec the condition is False, WaitingOnDPF, and its message names the first such child and its two generations. |
| AdapterGates.CaughtUpVerdict | yash-pratap-singh/feature_skeleton.go:278-310 | With nothing observed, or everything caught up, the condition is, in every field, one of three. |
| AdapterGates.ConditionsSemanticallyEqual | yash-pratap-singh/feature_skeleton.go:316-335 | The index-based gate decides: same length, and every condition of the second list is the last of its type in the first. |
| AdapterGates.EqualityGateOnDistinctKinds | yash-pratap-singh/feature_skeleton.go:313-335 | On lists without repeated types the gate is equality as multisets, hence symmetric. |
| AdapterGates.EqualityGateSymmetry | yash-pratap-singh/feature_skeleton.go:313-335 | For all lists: a pair accepted one way round is accepted the other way round if and only if the first list holds nothing the second lacks. |
| AdapterGates.EqualityGateIsNotSymmetric | yash-pratap-singh/feature_skeleton.go:316-335 | The smallest instance of failure: two different conditions of one type against twice the second. |
| AdapterGates.EqualityGateOnTarget | yash-pratap-singh/feature_skeleton.go:149-151 | Against the adapter's one-condition target the gate is plain equality. |
| AdapterGates.Unstructured.ExtractConditions | yash-pratap-singh/feature_skeleton.go:435-457 | The loop returns the conditions stored at status.conditions; malformed values read as none, malformed items are skipped. |
| AdapterGates.Unstructured.SetConditions | yash-pratap-singh/feature_skeleton.go:459-472 | Replaces status.conditions in place; through a malformed status nothing happens. |
| AdapterGates.ExtractUndoesSet | yash-pratap-singh/feature_skeleton.go:435-472 | Reading back what was written gives it back if and only if status can be written (or nothing was to be written); no other field changes, of the object or of its status. |
| AdapterGates.MalformedItemsAreSkipped | yash-pratap-singh/feature_skeleton.go:441-445 | An item that is no map can be taken out of the stored list, wherever it stands, without changing what is read. |
| AdapterGates.WrittenConditionsAreStamped | yash-pratap-singh/feature_skeleton.go:459-471 | Each written condition carries its time as one more field. |
| AdapterGates.Unstructured.StatusPass | yash-pratap-singh/feature_skeleton.go:139-157 | One status half of a pass: writes exactly when the stored conditions differ from the target and the server accepts. |
| AdapterGates.WriteAmplification | yash-pratap-singh/feature_skeleton.go:145-157 | In every run of passes the writes are at most one more than the adjacent passes with different targets, if and only if status can be written. |
| AdapterGates.QuietAfterWrite | yash-pratap-singh/feature_skeleton.go:145-157 | A pass right after an accepted write with the same observations writes nothing. |
| AdapterGates.StatusIsTheLastTarget | yash-pratap-singh/feature_skeleton.go:139-157 | After any run of passes over an object whose status can be written, it says what the last pass with a willing server found, true or false, and what it said before if there was none. |
| AdapterSafety.EveryRunKeepsInv | yash-pratap-singh/feature_skeleton.go:101-205 | One inductive invariant over all program counters, children and status writes holds in every reachable state. |
| AdapterSafety.StepKeepsInv | yash-pratap-singh/feature_skeleton.go:101-205 | Every single step of any actor, faults and restarts included, keeps it. |
| AdapterSafety.NoOrphans | yash-pratap-singh/feature_skeleton.go:101-187 | In every reachable state a child labelled with a UID belongs to an SFC with that UID that still exists and still holds the finalizer. |
| AdapterSafety.NoPrematureReady | yash-pratap-singh/feature_skeleton.go:120-157 | Every Ready=True ever written rests on at least one child; each child the pass listed is, by UID and generation, the object to which that same pass applied the SFC's image or UID, or a later version of it, and DPF had declared that very object Ready for the spec applied or a later one. |
| AdapterSafety.EvidenceCarriesTheSpec | yash-pratap-singh/feature_skeleton.go:120-157 | For every status write of every run, Ready or not: each listed service is the one the pass gave the image of the SFC it had read, each listed chain the one it gave the UID. |
| AdapterSafety.PatchApplies | yash-pratap-singh/feature_skeleton.go:125-131 | A Patch leaves the child of that name with the label and the translated spec of the SFC the pass had read; its generation moves exactly if its spec does, and no other child changes. |
| AdapterSafety.WriteSpeaksForTheCurrentSpec | yash-pratap-singh/feature_skeleton.go:142-156 | A status write lands only on the very SFC version the pass read, is for that object's generation, and really changes the status. |
| AdapterProgress.TeardownPass | yash-pratap-singh/feature_skeleton.go:163-187 | An undisturbed deletion pass releases the finalizer exactly when no child is left; otherwise it keeps the SFC and leaves every owned child marked for deletion. |
| AdapterProgress.TeardownCompletes | yash-pratap-singh/feature_skeleton.go:160-187 | From every reachable state an idle worker of a deleted SFC can finish: its own passes and DPF letting go release the finalizer with no child left. |
| AdapterProgress.ReadyIsReachable | yash-pratap-singh/feature_skeleton.go:112-157 | From every reachable state a live SFC with an idle worker, with or without the finalizer, can reach Ready=True for its present generation. |
| AdapterProgress.PassReports | yash-pratap-singh/feature_skeleton.go:112-157 | From every reachable state an undisturbed pass over a live SFC brings both children to its present image and UID, and its status to one condition for its present generation, true if and only if DPF has caught up with both and reports them Ready. |
| AdapterProgress.EditTakesReadyAway | yash-pratap-singh/feature_skeleton.go:120-157 | From every reachable state in which the service does not yet carry the present image, whatever DPF had declared, such a pass ends with Ready=False. |
| AdapterEvidence.WriteRestsOnWhatWasListed | yash-pratap-singh/feature_skeleton.go:125-157 | For every status write of every run: the pass that writes made two list calls, services before chains, and its evidence is exactly what the two returned; it has a child of a kind if and only if, at the moment of that call, the child the pass had applied still existed under the SFC's label. |
| AdapterEvidence.ReadyOnOneChild | yash-pratap-singh/feature_skeleton.go:120-157 | From every reachable state with a live SFC and an idle worker there is a run that makes one more write, and it is Ready=True for this SFC and its present generation, with a child applied by that very pass gone. |
| AdapterEvidence.NamesakesShareChildren | yash-pratap-singh/feature_skeleton.go:366-373 | Two SFCs have a child in common if and only if their names are equal, whatever their namespaces; kinds never mix. |
| AdapterEvidence.NamesakeTakesChild | yash-pratap-singh/feature_skeleton.go:125-131 | In every reachable state, a Patch that takes effect for one SFC leaves its namesake, from that moment, with no child of the kind. |
| DpfStore.InMemoryClient.Get | aditya-sarna/feature_skeleton.go:241-249 | Returns what is stored under the key, or nothing. |
| DpfStore.InMemoryClient.List | aditya-sarna/feature_skeleton.go:251-272 | Exactly the objects that match kind, namespace and selector, each once, ordered by name, whatever the order of the map. |
| DpfStore.InMemoryClient.Apply | aditya-sarna/feature_skeleton.go:274-285 | Upsert that keeps stored conditions when the applied object sets none. |
| DpfStore.InMemoryClient.Delete | aditya-sarna/feature_skeleton.go:287-292 | Removes one key, present or not. |
| DpfStore.InMemoryClient.SetConditions | aditya-sarna/feature_skeleton.go:295-302 | Replaces the conditions of a stored object, nothing else. |
| DpfStore.AppliedAllAt | aditya-sarna/feature_skeleton.go:274-285 | Applying any spec-only plan, repeated keys included: every planned key ends with its last planned spec and the conditions it had, no other key changes. |
| DpfStore.ApplyTwiceIsApplyOnce | aditya-sarna/feature_skeleton.go:377-381 | Applying a plan a second time leaves the whole store unchanged. |
| DpfStore.AppliedAllKeepsKeys | aditya-sarna/feature_skeleton.go:193-195 | Objects stay stored under their own keys. |
| DpfStore.ReadyMeansTrue | aditya-sarna/feature_skeleton.go:198-205 | An object is Ready if and only if a condition of kind Ready with status true is among its conditions. |
| DpfStore.SelectsExactly | aditya-sarna/feature_skeleton.go:259-264 | A selector asks for each of its labels; an empty value also matches a missing label. |
| SfcTranslation.SanitizeRfc1123 | aditya-sarna/feature_skeleton.go:331-349 | The builder loop equals the character-by-character definition, with trim, cut at 40 and fallback in the source's order. |
| SfcTranslation.SanitizeKeeps | aditya-sarna/feature_skeleton.go:331-349 | A cleaned name is the lowered text with everything filtered out but letters, digits, dashes, dots, underscores and blanks, the last three made dashes one for one, stripped, cut at 40, and `unnamed` if nothing is left. |
| SfcTranslation.CleanEndsInDash | aditya-sarna/feature_skeleton.go:341-344 | A cleaned name ends in a dash if and only if the trimmed text is longer than 40 and has a dash where it is cut. |
| SfcTranslation.StandardPlatformIsSound | aditya-sarna/feature_skeleton.go:323-349 | Cleaning leaves a twelve-digit request hash as it is, so the naming results apply to the source's own cleaning and hashing. |
| SfcTranslation.TranslateSfc | aditya-sarna/feature_skeleton.go:387-461 | The nested loops produce the plan: service, two interfaces per network function, chain, optional IPAM, in that order. |
| SfcTranslation.PlanMember | aditya-sarna/feature_skeleton.go:383-461 | Every planned object is spec-only, in the managed namespace, of a swept kind and labelled with its owner; the only service and the only chain are the owner's. |
| SfcTranslation.ChainNamesItsInterfaces | aditya-sarna/feature_skeleton.go:412-448 | Hop i of the planned chain names exactly the two interfaces planned for network function i, ingress first. |
| SfcTranslation.PlanCarriesTheSpec | aditya-sarna/feature_skeleton.go:391-459 | The planned service runs each network function's image under its cleaned name, in order; the chain selects the SFC's nodes; there is an IPAM object exactly when a subnet is given, and it hands that out. |
| SfcTranslation.InterfacesCarryTheSpec | aditya-sarna/feature_skeleton.go:411-442 | Function i has an ingress and an egress interface, in this order, with its cleaned name, its direction and the SFC's nodes, and hop i is its own. |
| SfcTranslation.KeyFixesKind | aditya-sarna/feature_skeleton.go:193-195 | Equal store keys of the swept kinds mean equal kinds and equal namespace/name text, whatever the names contain. |
| SfcReconciler.Reconciler.Reconcile | aditya-sarna/feature_skeleton.go:829-886 | A whole pass with every error return: nothing on a missing SFC; the first store call that errors ends the pass with a requeue and no condition published. On a live SFC exactly the applies before it (and that one if it took effect) are done; on a deleted one the whole rounds before it and, in its round, the deletes before it in name order (and that one if it took effect). Without an error exactly the sweep on a deleted SFC (done if no chain was there before, else again in 2 s), and on a live one the applied plan and a published ChainProgrammed condition whose status is true if and only if a chain and a service are owned and every owned one holds a true Ready, done exactly when programmed and accepted, again in 5 s while not programmed. |
| SfcReconciler.Reconciler.Sweep | aditya-sarna/feature_skeleton.go:847-857 | The four list-and-delete rounds remove exactly the swept kinds' objects that match the selector; they fail if and only if one of their calls errors, and then exactly the rounds before it and the deletes before it in its round are done, and that delete itself if it took effect. |
| SfcReconciler.ChainsGoFirst | aditya-sarna/feature_skeleton.go:847-857 | A deletion pass cut short anywhere has taken no service of the owner while a chain of the owner is left. |
| SfcReconciler.Reconciler.Aggregate | aditya-sarna/feature_skeleton.go:889-915 | The condition is ChainProgrammed; its status is true if and only if a chain and a service are owned and every owned one holds a true Ready; its reason says which, and while it is false its message carries the exact numbers of owned chains and services. |
| GarbageCollection.SelectorIsExact | aditya-sarna/feature_skeleton.go:352-359 | An owner's selector matches what its own plans label and nothing another owner's do. |
| GarbageCollection.DeletionIsComplete | aditya-sarna/feature_skeleton.go:838-864 | After any history of full or interrupted reconciles, revisions, reports, deletions and others' traffic, one deletion pass leaves nothing of the owner and changes nothing else. |
| GarbageCollection.DoneMeansGone | aditya-sarna/feature_skeleton.go:838-864 | After any such history a deletion pass, cut short or not, answers done if and only if no call of it errored and no chain was there before it; after a done nothing of the owner is left, of any kind. Objects of others are untouched in every case. |
| GarbageCollection.ExactlyOneServiceAndChain | aditya-sarna/feature_skeleton.go:866-915 | After any history from a store without the owner's objects, one whole live pass and any further history that spares its two keys, the owner has exactly one service and one chain, and ChainProgrammed is true exactly when both are Ready. |
| GarbageCollection.ReconcilingKeepsReadiness | aditya-sarna/feature_skeleton.go:866-885 | After any such history, reconciling again, with any revision and however far it gets, never loses readiness. |
| GarbageCollection.PublishedIsWhatDpfSaid | aditya-sarna/feature_skeleton.go:866-915 | Whatever a pass publishes after any such history is true if and only if the conditions last reported on each of the two keys hold a true Ready; until then it counts one chain and one service. |
| GarbageCollection.LivePassCarriesTheSpec | aditya-sarna/feature_skeleton.go:866-872 | Right after a whole live pass, whatever was stored before, the owner's stored service runs the SFC's present images in order and its chain hops through the functions on the SFC's nodes. |
| GarbageCollection.SparesByName | aditya-sarna/feature_skeleton.go:317-326 | For any naming scheme: another owner's pass, with any spec and cut anywhere, spares an owner's two keys if and only if neither its service name nor its chain name is the owner's. |
| GarbageCollection.StandardSpares | aditya-sarna/feature_skeleton.go:317-326 | For the source's naming: if and only if for neither role the truncated hashes and the cleaned names both agree. |
| GarbageCollection.SeparateOwnersSpare | aditya-sarna/feature_skeleton.go:317-326 | Distinct owners with slash-free fields whose truncated hashes do not collide spare each other. |
| GarbageCollection.RevisionPrunesNothing | aditya-sarna/feature_skeleton.go:866-872 | After a live pass, whole or interrupted, a key is in the store if and only if it was before or is planned. |
| NetworkFunctions.HashInputInjective | aditya-sarna/feature_skeleton.go:465-468 | The hashed text determines the request when no field contains the separator. |
| NetworkFunctions.SeparatorsCollide | aditya-sarna/feature_skeleton.go:465-506 | Without the exclusion of the separator it fails, for all texts: requests that differ in which field holds it share all three keys. |
| NetworkFunctions.StandardSchemeSeparates | aditya-sarna/feature_skeleton.go:465-506 | Distinct requests get distinct base names from truncated hashes that do not collide; all carry the node's owner labels. |
| NetworkFunctions.KeysAreDisjoint | aditya-sarna/feature_skeleton.go:473-506 | Three pairwise distinct store keys per request, none shared between two requests. |
| NetworkFunctions.StandardLabels | aditya-sarna/feature_skeleton.go:473-476 | A request's objects are labelled with the node, the request hash and the cleaned bridge. |
| NetworkFunctions.CreatePutsInPlace | aditya-sarna/feature_skeleton.go:473-506 | Whatever was stored, a create leaves the ingress interface on the request's input, the egress interface on its output and the hop that names the two, all on the node, and keeps what DPF has said of the chain. |
| NetworkFunctions.NvidiaVsp.CreateNetworkFunction | aditya-sarna/feature_skeleton.go:670-695 | Success exactly at the first uncancelled poll before the deadline at which what DPF last said of the request's chain holds a condition of kind Ready with status true, and the stored chain holds one then; otherwise the wait ends at the first cancelled poll or past the timeout; the three objects are in place as the request asks in every case. |
| NetworkFunctions.NvidiaVsp.AwaitReady | aditya-sarna/feature_skeleton.go:683-694 | The polling loop terminates within the timeout, ends exactly where `Ends` says, and changes nothing itself. |
| NetworkFunctions.NvidiaVsp.SetNumVfs | aditya-sarna/feature_skeleton.go:633-668 | Refuses to shrink below what pods hold, without a write; otherwise stores the request and waits: success exactly when the host lists the number asked for, on a timeout the reported number is the last listing. |
| NetworkFunctions.LastVfRequestStands | aditya-sarna/feature_skeleton.go:643-651 | Of two requests for virtual functions the store holds one object of the node, asking for the later number; conditions and all other objects stay. |
| NetworkFunctions.NvidiaVsp.DeleteNetworkFunction | aditya-sarna/feature_skeleton.go:697-707 | Removes exactly the three keys of the request, present or not. |
| NetworkFunctions.CallsTouchOnlyTheirOwn | aditya-sarna/feature_skeleton.go:675-707 | A call changes no key but its own request's. |
| NetworkFunctions.StoreRefinesActiveRequests | aditya-sarna/feature_skeleton.go:670-707 | After any calls, timed-out creates and DPF reports included, the objects labelled as the node's requests are exactly the three of each request whose last call is a create. |
| NetworkFunctions.ActiveIsInPlace | aditya-sarna/feature_skeleton.go:670-707 | After any calls the three objects of every request whose last call is a create are as that request asks, whatever other requests have done since. |
| CircuitBreaker.Guard.Enter | rishan/feature_skeleton.go:350-365 | The locked first half of a call: refuses exactly when open within the cooldown, and turns an open breaker half-open when it admits. |
| CircuitBreaker.Guard.Finish | rishan/feature_skeleton.go:370-386 | The locked second half: counts and stamps a failure, opens at the threshold, resets on success. |
| CircuitBreaker.Guard.Execute | rishan/feature_skeleton.go:349-386 | A call nothing interleaves with runs the function exactly when admitted (for whom that is, see `RunsExactly`). |
| CircuitBreaker.BreakerIsConsistent | rishan/feature_skeleton.go:349-386 | In every interleaving of any callers: CLOSED exactly when the count is below the threshold, the count is the failures since the last success, HALF_OPEN means its probe is still inside; if and only if the threshold is at least 1. |
| CircuitBreaker.NeverStuck | rishan/feature_skeleton.go:352-365 | In every reachable state a caller past the cooldown is admitted, and the finish of the pending probe ends HALF_OPEN. |
| CircuitBreaker.AdmittedExactly | rishan/feature_skeleton.go:350-386 | In every interleaving and on recorded outcomes alone: a caller is refused if and only if the failures since the last success have reached the threshold, the last call to finish failed at most a cooldown ago, and nobody has gone in since; below the threshold every caller is admitted at any time. |
| CircuitBreaker.RunsExactly | rishan/feature_skeleton.go:349-386 | The same for calls one after the other: after any attempts the next one runs the function if and only if it is not so refused. |
| CircuitBreaker.ProbeIsAlone | rishan/feature_skeleton.go:346-365 | In every reachable HALF_OPEN state the probe is the only caller inside if and only if nobody was inside when it turned the breaker and nobody else has tried to enter since. |
| CircuitBreaker.HalfOpenAdmitsMany | rishan/feature_skeleton.go:346-365 | For every threshold and cooldown and any number of callers there is a run with exactly that many inside a half-open breaker. |
| CircuitBreaker.ProbesAreSpaced | rishan/feature_skeleton.go:352-380 | During an outage each call past the threshold waited out a whole cooldown. |
| CircuitBreaker.CallBound | rishan/feature_skeleton.go:324-327 | During an outage a fresh breaker lets the function run at most threshold + T/(cooldown + 1) times, so at most threshold + T/cooldown, in a span T. |
| CircuitBreaker.CallBoundIsTight | rishan/feature_skeleton.go:349-386 | The bound is attained for every threshold, cooldown and number of probes. |
| WriteAheadLog.EntryIdsDiffer | rishan/feature_skeleton.go:557-558 | Passes at different instants never log under the same identifier, whatever the policy names. |
| WriteAheadLog.Wal.Write | rishan/feature_skeleton.go:438-445 | Records the intent as PENDING. |
| WriteAheadLog.Wal.MarkComplete | rishan/feature_skeleton.go:448-455 | Changes the status of an existing entry only. |
| WriteAheadLog.Wal.MarkFailed | rishan/feature_skeleton.go:458-465 | Changes the status of an existing entry only. |
| WriteAheadLog.Wal.GetAll | rishan/feature_skeleton.go:469-495 | Every entry with the status exactly once. |
| WriteAheadLog.LifecycleWatcher.ReplayRulesForNode | rishan/feature_skeleton.go:667-707 | The loop adds exactly the names of the node's COMPLETE bridge entries whose call lands, in any order of the log. |
| WriteAheadLog.LifecycleWatcher.HandleTransition | rishan/feature_skeleton.go:629-663 | Replays exactly on a recorded change from a phase that was not Ready to Ready, when the bridge resolves; records the phase always. |
| WriteAheadLog.DriftReport | rishan/feature_skeleton.go:782-807 | Orphans and missing names are the two differences between the hardware and the node's COMPLETE entries. |
| WriteAheadLog.EveryRunKeepsInv | rishan/feature_skeleton.go:538-707 | Log, calls in flight, replays under way and hardware stay consistent in every interleaving of the steps of passes, crashes, reboots and any number of replays, whose calls may fail one by one. |
| WriteAheadLog.EveryBridgeIsLogged | rishan/feature_skeleton.go:420-422 | Every bridge on a node has a log record for that node; an orphan is the trace of a pass never marked COMPLETE. |
| WriteAheadLog.ReplayRestoresTheNode | rishan/feature_skeleton.go:665-707 | Right after a reboot and a replay, in any order of its calls, the node has exactly the names whose calls landed: its COMPLETE entries if and only if every name has an entry whose call landed; log, calls in flight and other nodes are unchanged. |
| WriteAheadLog.MissingIsAlwaysStale | rishan/feature_skeleton.go:556-592 | On a node not rebooted since its last whole replay, only passes that the reboot caught between answer and mark can be missing. |
| WriteAheadLog.RebootBeforeMarkLosesARule | rishan/feature_skeleton.go:580-585 | For every reachable state and every pass caught between answer and mark by a reboot, after a replay that lands every call and the mark: its name is desired, and missing if and only if no entry COMPLETE before the reboot has the same name. |
| WriteAheadLog.AbandonedStaysPending | rishan/feature_skeleton.go:420-422 | An entry whose pass was cut short stays PENDING through every further run and is never in a replay. |
| WriteAheadLog.ConfirmedIsReached | rishan/feature_skeleton.go:556-585 | For every policy, node and bridge a pass can stand between answer and mark two steps into a run. |
| NetworkPolicy.Controller.Reconcile | rishan/feature_skeleton.go:538-592 | A whole pass refines the three interleaved steps; Active exactly when admitted, dialled, reached and answered, which is exactly when the entry is COMPLETE; the bridge is added exactly when the call reached the hardware; the breaker takes the attempt whatever failed; no effect before the DPU is Ready and addressable. |
| FailureWindow.StatusAggregator.Reconcile | divyansh-yadav/feature_skeleton.go:780-844 | The three maps move together as one function of the old maps and the probe; reports whether it downgraded, which `DowngradedExactly` ties to the history. |
| FailureWindow.EndpointIsLastRead | divyansh-yadav/feature_skeleton.go:798-809 | The stored endpoint is the one read last, and there is none exactly when none was ever read. |
| FailureWindow.CountMatchesHistory | divyansh-yadav/feature_skeleton.go:802-834 | The counter is the number of failed probes since the last success, downgrade or endpoint change. |
| FailureWindow.WindowMatchesHistory | divyansh-yadav/feature_skeleton.go:815-834 | The window start is the time of the first failure since the last success or downgrade, and absent exactly when every failure has been cleared. |
| FailureWindow.DowngradedExactly | divyansh-yadav/feature_skeleton.go:812-828 | In every run a probe downgrades if and only if it failed, the failures of its present run, itself included, are at least 3, and more than 90 s have passed since the failure that opened the window, perhaps itself; every failed probe has exactly one such run and window. |
| FailureWindow.EndpointInheritsWindow | divyansh-yadav/feature_skeleton.go:802-818 | After a failed probe of a changed endpoint the count is 1, and the window is the old endpoint's if and only if one was open. |
| FailureWindow.DowngradedAtOnce | divyansh-yadav/feature_skeleton.go:802-827 | For any two endpoints and any failure more than a window ago, three failures of the new endpoint in one instant downgrade it. |
| FailureWindow.DowngradesArePaidFor | divyansh-yadav/feature_skeleton.go:819-827 | Every downgrade uses up three failures and more than one window of its own. |
| FailureWindow.DowngradeBounds | divyansh-yadav/feature_skeleton.go:819-827 | In any run, three times the downgrades are at most the failed probes, and downgrades times 90 s are less than the elapsed time. |
| FailureWindow.KeysAreIndependent | divyansh-yadav/feature_skeleton.go:774-776 | What is kept for a key, and when it is downgraded, depends on its own probes only. |
| ConditionMerge.MergeConditions | jasmine-kaur/feature_skeleton.go:754-773 | The loops leave, in some order, exactly the upserts of the updates into the last condition of each type. |
| ConditionMerge.LastOfEachKindCounts | jasmine-kaur/feature_skeleton.go:755-758 | Of an existing list with repeated types a merge reads the last of each. |
| ConditionMerge.OpiDpuDevice.SetCondition | jasmine-kaur/feature_skeleton.go:740-749 | One stamped upsert of the device's status; types stay distinct. |
| ConditionMerge.OrderDoesNotMatter | jasmine-kaur/feature_skeleton.go:768-772 | The order in which a merge lists its result does not influence any later merge. |
| ConditionMerge.RunIsOneUpsert | jasmine-kaur/feature_skeleton.go:754-773 | A run of merges, each ordering its list as it likes, equals the upserts of all updates in turn. |
| ConditionMerge.TransitionTimesMeanStretches | jasmine-kaur/feature_skeleton.go:751-767 | Over any run from an empty list: types unique, none lost, each condition the last set, its transition time the start of its present unbroken stretch of status. |
| Names.SafeName | rahul-tripathi/feature_skeleton.go:147-171 | The one-pass scanner with its dash flag computes: every other character a dash, runs collapsed, ends stripped, fallback, cut at 63. |
| Names.SafeNameIsLabel | rahul-tripathi/feature_skeleton.go:147-171 | For every input a valid label of 1 to 63 characters without double dashes. |
| Names.SafeNameIsJoinedPieces | rahul-tripathi/feature_skeleton.go:147-171 | For every input: the runs of letters and digits of the trimmed, lowered text joined by single dashes, cut at 63 or before a dash there, and `opi-intent` if there are none. |
| Names.SafeNameFixes | rahul-tripathi/feature_skeleton.go:147-171 | Leaves a string unchanged if and only if it is such a label; hence idempotent. |
| Names.SanitizeName | mridankan-mandal/feature_skeleton.go:513-521 | The rewrite loop terminates, and leaves the dash-free words of the text joined by single dashes. |
| Names.SanitizedIsJoinedPieces | mridankan-mandal/feature_skeleton.go:513-521 | For every input: the pieces of the trimmed, lowered text between dashes, colons, dots, underscores, slashes and blanks, joined by single dashes. |
| Names.ReplaceKeepsCollapse | mridankan-mandal/feature_skeleton.go:517-519 | One replacement of double dashes keeps the collapsed form and shortens the text while a double dash is left. |
| Names.CollapsedIsJoinedWords | mridankan-mandal/feature_skeleton.go:517-520 | Collapsing every run and stripping the ends is joining the words. |
| Names.RewriteLoopIsScanner | mridankan-mandal/feature_skeleton.go:513-521 | For every string, loop and scanner agree if and only if the loop's result is non-empty, at most 63 long and made of label characters; of label characters and longer, it is cut. |
| Names.AlphabetIsSanitized | mridankan-mandal/feature_skeleton.go:513-521 | On letters, digits, dashes and the five separators the loop leaves only label characters. |
| Names.TrimNameIsLabel | mridankan-mandal/feature_skeleton.go:557-575 | From bytes without double or outer dashes the hashed cut makes 1 to 63 bytes without them, also when it lands on a dash; a label if and only if what is kept is made of label characters; names that fit stay. |
| Names.CutNamesTell | mridankan-mandal/feature_skeleton.go:565-574 | Two names that had to be cut are equal only if the hashes of the whole texts are. |
| BuiltNames.BuiltNameIsLabel | mridankan-mandal/feature_skeleton.go:490-504 | Every name the builders make, for every text of any length, has 1 to 63 bytes and no double or outer dash; it is a label if and only if the kept part of the sanitised text's bytes is made of label characters, for a text that fits in 63 bytes if and only if its lowered characters all are label characters or separators. |
| BuiltNames.CutText | mridankan-mandal/feature_skeleton.go:557-575 | A text whose bytes are a byte-wise beginning of another text's followed by ASCII is a beginning of that text followed by the same: where a hashed cut gives a text at all, it cuts between characters. |
| BuiltNames.AlphabetNameIsLabel | mridankan-mandal/feature_skeleton.go:490-504 | On letters, digits, dashes and the five separators every built name is a label. |
| BuiltNames.StrangeCharSurvives | mridankan-mandal/feature_skeleton.go:513-521 | Every other character that lower case and trimming leave alone comes out unchanged, so the name is no label. |
| BuiltNames.AtSignSurvives | mridankan-mandal/feature_skeleton.go:513-521 | The instance `a@b`. |
| BuiltNames.LabelValueIsStable | mridankan-mandal/feature_skeleton.go:585-592 | For every string a label value has 1 to 63 bytes and no double or outer dash, and is never the last fallback. |
| BuiltNames.LabelValueIsIdempotent | mridankan-mandal/feature_skeleton.go:585-592 | A second round, over the text that the label value of any string is, changes nothing if and only if the sanitised text does not begin with white space, nor end with it where its end is kept. |
| BuiltNames.AlphabetValueIsIdempotent | mridankan-mandal/feature_skeleton.go:585-592 | On letters, digits, dashes and the five separators a label value is a label and idempotent. |
| BuiltNames.WhiteSpaceIsNotStable | mridankan-mandal/feature_skeleton.go:513-521 | For all white space but the blank and all words: behind a leading dash it survives the first round and is lost in the second. |
| BuiltNames.TabIsNotStable | mridankan-mandal/feature_skeleton.go:513-521 | The instance of a tab behind a dash. |
| IntentTranslation.SortedValues | rahul-tripathi/feature_skeleton.go:210-222 | Strictly ascending list of exactly the trimmed non-blank values, so a function of their set. |
| IntentTranslation.AscendingIsUnique | rahul-tripathi/feature_skeleton.go:210-222 | An ascending list is determined by its elements. |
| IntentTranslation.CleanProfiles | rahul-tripathi/feature_skeleton.go:224-233 | The trimmed non-blank values in their order. |
| IntentTranslation.FormatSelector | rahul-tripathi/feature_skeleton.go:178-189 | The text depends on the map alone, in whatever order its keys are met. |
| IntentTranslation.FormatIsInjective | rahul-tripathi/feature_skeleton.go:178-189 | Selectors with the same text are the same when keys contain neither separator and values no comma. |
| IntentTranslation.ValidateSelector | rahul-tripathi/feature_skeleton.go:191-201 | Passes exactly when no key and no value is blank; otherwise reports a fault that is there. |
| IntentTranslation.ScopeIdentifies | rahul-tripathi/feature_skeleton.go:203-208 | Scopes are equal exactly when the trimmed namespaces are. |
| IntentTranslation.IdentityIsInjective | rahul-tripathi/feature_skeleton.go:137-139 | The hashed text determines scope, name and UID when they contain no slash. |
| IntentTranslation.ChildNameIdentifies | rahul-tripathi/feature_skeleton.go:137-145 | Two child names are equal exactly when scope, name, UID and kind are, provided their hashes do not collide. |
| IntentTranslation.ChildNameBeginsWithItsIntent | rahul-tripathi/feature_skeleton.go:137-145 | A child name is as much of the intent's safe name as fits, less a dash at the cut, then a dash and the hash. |
| IntentTranslation.ChildNameIsLabel | rahul-tripathi/feature_skeleton.go:137-145 | A valid label of at most 63 characters for every intent, also when the cut lands on a dash. |
| IntentTranslation.Translate | rahul-tripathi/feature_skeleton.go:40-115 | The checks in the source's order, each with its own error, and the rendered objects when all pass. |
| IntentTranslation.RenderedExactly | rahul-tripathi/feature_skeleton.go:41-62 | An intent is rendered if and only if name, source kind, UID and profile are not blank, some device is not, and there is a selector without a blank key or value. |
| IntentTranslation.RenderedCarriesTheIntent | rahul-tripathi/feature_skeleton.go:64-112 | Every object is in the caller's namespace, or the operator's if none is given, under exactly the four labels; its annotations are exactly the intent's fields; a deployment exists exactly when a profile is not blank, and adds the profiles. |
| IntentTranslation.TranslationIsCanonical | rahul-tripathi/feature_skeleton.go:40-115 | Permuting, repeating or padding devices, padding the namespace and adding blank profiles changes neither objects nor error. |
| IntentTranslation.TranslationIsFaithful | rahul-tripathi/feature_skeleton.go:69-112 | Intents render the same objects if and only if they agree once order, padding, blanks and repetitions are removed. |
| IntentTranslation.CommasCollide | rahul-tripathi/feature_skeleton.go:84 | Without the exclusion of commas faithfulness fails, for all pairs of devices: one device named by both, joined by a comma, renders like the two. |
| IntentTranslation.EqualsCollide | rahul-tripathi/feature_skeleton.go:178-189 | Without the exclusion of `=` from keys the text does not determine the selector, for all texts. |
| IntentTranslation.RenderedIsValid | rahul-tripathi/feature_skeleton.go:71-112 | Every rendered name and every label value is a valid label; a DPUSet always, a DPUDeployment exactly when a profile is left. |
| IntentTranslation.LabelsIdentify | rahul-tripathi/feature_skeleton.go:70-76 | The two hash labels tell apart exactly the sources and exactly the device sets. |

## Left out

- GarbageCollection.DoneMeansGone: the store deletes at once, so objects that finalizers keep in a real
  API server after a delete are not modelled.
- GarbageCollection.ExactlyOneServiceAndChain: nothing is claimed about interfaces and IPAM objects
  that a later revision drops; the source does not prune them while the SFC lives.
- NetworkFunctions.StoreRefinesActiveRequests: requests whose fields contain `|`
  (`NetworkFunctions.SeparatorsCollide`) or whose truncated hashes collide are excluded, because they
  share objects.
- IntentTranslation.TranslationIsFaithful: commas are excluded, and `=` in selector keys, because
  intents that use them can render alike (`CommasCollide`, `EqualsCollide`).
- BuiltNames.LabelValueIsIdempotent: when the hashed cut falls inside a character the label value is not
  a text, and nothing is said of a second round.
- ConditionMerge.TransitionTimesMeanStretches: the rounding of times to seconds on a trip through
  the API server is not modelled.
- WriteAheadLog.ReplayRestoresTheNode: about bridge names only; a replay sends VLAN 0 and a fixed
  security policy.
- WriteAheadLog.EveryBridgeIsLogged: timestamps, payloads and the hardware identifiers of the
  answers are not modelled.
- The rest of the validity of the names that aditya-sarna's sanitiser makes: the total length, and the
  double dashes it keeps.
- `Init`, `GetDevices`, `Ping`, `SetDpuNetworkConfig` and `LifecycleManager` of
  aditya-sarna: single branches and switch tables.
- The annotations of the SFC adapter's children and the watch predicates that decide when a pass is
  queued: the state machine lets a pass start at any time.
- The requeue delays of the SFC adapter and of the policy controller, and status messages other than
  the SFC adapter's and the chain's.
- `updateStatus` of jasmine-kaur, which never clears Degraded, and the `MapStatus` text of
  rahul-tripathi: settled by reading one body.
- Texts of error messages and the prefixes of label and annotation keys in the intent translation:
  enumerations stand for them.
- SHA-1, SHA-256 and FNV internals, Unicode lower case, white space and UTF-8: parameters.
- gRPC, logging, JSON and YAML, manager wiring, informer caches and real clocks: input and output.
- The other controllers and builders in the modelled files (identifier derivation, object builders,
  install states, version checks, translator registries): switch tables or straight-line code.
- The other submissions: stubs, switch tables, or weaker variants of the modelled components.
