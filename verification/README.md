# Pluma operator: reconcilers, values merge and Istio translation

This project models the two controllers of the pluma operator and proves what whole runs of them
guarantee. A `HelmApp` names a list of chart components; its reconciler installs, upgrades and
uninstalls Helm releases until they agree with the list, and records them in the status. An
`IstioOperator` is translated into a `HelmApp` by the second reconciler, which owns it through a label
and a finalizer. The values of a release are a deep merge of global and component values.

## How it is modelled

- **Calls.** Every call to the API server or to Helm is logged in `World.trace`, and the k-th one is
  answered by `Oracle.replies(k)`: success, or an error whose effect may nevertheless have happened.
  All theorems hold for every oracle, so for every pattern of failures.
- **Helm.** A successful install or upgrade records the located chart and the given values as
  "deployed"; a failed one leaves the store alone and returns no release, or records the request as
  "failed" and returns it. A failed uninstall may or may not have removed the release. The empty
  release name is refused by the history lookup. One current release is kept per name, so the last
  and the first element of the history the program asks for are the same.
- **Charts.** `Oracle.published` gives the version of the chart found for a repository, chart name and
  requested version; it may differ from the version requested, and does not change during a run.
- **Passes.** `HelmApp.Reconcile` and `Istio.IopReconcile` give the result of one pass on the stored
  objects and the world. `HelmAppController` and `IstioController` write the passes the way the program
  does, with objects, loops, an in-place slice and in-place field updates, and are proved equal to these
  functions. `GoMap.MergeValues` is the recursive merge over mutable, possibly shared maps.
- **Foreign releases.** Runs start from a cluster that may hold releases of others. "Owned" means not
  there at the start.
- **Interleaving.** Passes and user changes are atomic steps in any order. A change that arrives in the
  middle of a pass makes the pass's status write fail with a conflict, so it is represented by a pass
  whose status write fails, followed by the change.
- **nil.** A nil status or repository is an absent `Option`; dereferencing it ends the pass with the
  outcome `Panic`.

## What was found

- A `HelmApp` deleted before its first status write is never let go: the deletion pass dereferences a
  nil status (`Limits.DeletedTooSoon`, `Deletion.DeletionEndsIff`).
- A release whose status write was lost is forgotten if the `HelmApp` is deleted, or its component
  dropped from the spec, before the next successful write; the exact conditions are
  `Deletion.DeletionClearsIff` and `Protocol.EditTracksIff`, a run is `Limits.LostStatusWriteLeaks`. Over
  whole runs these are the only steps that lose a release (`Protocol.RunsKeepInvariantIff`), and each of
  them does, for good (`Deletion.DisallowedLeaks`).
- A release recorded as failed with the requested version and values is never deployed again, though each
  pass asks for a retry (`Retry.FailedForGood`; a run is `Limits.FailedInstallStays`). A release is
  deployed after a successful pass exactly if it did not match before or was deployed already
  (`Convergence.SuccessMatches`). One made from another chart of the same version and values is never
  replaced (`Convergence.MatchingReleaseStays`).
- A component whose chart is found at another version than requested is upgraded in every pass
  (`Convergence.UnpinnedGrows`). So what a history of specs leaves can differ from a fresh install of the
  last one; `History.FreshInstallIff` says exactly when.
- Components of one name settle exactly if they ask for the same version and the same effective values
  and one of their charts is found at that version, or the release is there already
  (`Fixpoints.FixpointIff`); where they ask for different things the release gains revisions in every
  successful pass (`Fixpoints.DisagreementGrows`, `Limits.DuplicatesNeverSettle`).
- A component whose chart cannot be found or loaded, whose release cannot be looked up, or whose deployment
  fails before Helm records it, is reported with nothing of its release, and a pass that meets no other
  failure then ends without error or retry. `Retry.ReportsFailedIff` and `Retry.RetryIff` say exactly which
  failures are reported and when a pass asks for a retry; runs are in `Limits.QuietFailure`.
- An `IstioOperator` with resources for istiod but no `pilot` section in its values cannot be translated
  (`IstioLaws.TranslationFailsIff`).
- Egress gateways take the autoscaling settings of the ingress gateway (`IstioValues.GatewayTranslated`).
- Operators "a" and "a-b" can generate the same release name (`IstioLaws.HyphensCollide`).
- The deep merge is not associative in general (`Values.NotAssociative`).
- A comment in the program speaks of a retry after 3 minutes where the constant says 30 seconds
  (`internal/controller/helmapp.go:64`, `:156`); the model has the retry, not its delay.

## Files

`Prelude`, `Types` and `Helm` hold the data model and the calls. `Values` and `GoMap` are the merge.
`HelmApp` has the passes of the first reconciler as functions; `Effects`, `Removal`, `Passes`, `Phase`,
`Convergence`, `Fixpoints`, `Retry`, `Outcomes`, `Protocol`, `Deletion`, `History` and `Limits` prove what
they do; `Limits` also holds instances that meet the conditions of the other results. `Istio`, `IstioLaws`,
`IstioValues`, `OperatorPasses` and `EndToEnd` do the same for the second. `Cluster`, `HelmAppController` and `IstioController` are the
imperative layer.

## Model

| member | source | states |
|---|---|---|
| Values.MergeAtPath | internal/controller/helmapp.go:424-441 | at every key path the merge holds b's non-map value, else a's where b has nothing (nothing at all below a non-map of b), else the merge of two maps, else b's map whole |
| Values.MergeEmpty | internal/controller/helmapp.go:424-441 | the empty map is an identity on both sides |
| Values.MergeSelf | internal/controller/helmapp.go:424-441 | merging a map with itself changes nothing |
| Values.MergeDefaultsAgain | internal/controller/helmapp.go:424-441 | merge(a, merge(a, b)) = merge(a, b) |
| Values.MergeOverridesAgain | internal/controller/helmapp.go:424-441 | merge(merge(a, b), b) = merge(a, b) |
| Values.AbsorbedIffCovered | internal/controller/helmapp.go:424-441 | merge(a, c) = c exactly when c has every key of a, at every level where both hold maps |
| Values.AssociativeIff | internal/controller/helmapp.go:424-441 | grouping does not matter exactly when, at each path where b hides a map of a and c brings a map back, that map covers a's |
| Values.AssociativeWithoutHiding | internal/controller/helmapp.go:424-441 | in particular when no path holds maps in a and c and a plain value in b |
| Values.NotAssociative | internal/controller/helmapp.go:424-441 | a concrete triple for which grouping matters |
| Values.OverlayIsMergeIff | internal/istio/iop.go:189-202 | overwriting key by key equals the deep merge exactly when no map on the left loses a key to the map replacing it |
| GoMap.MergeValues | internal/controller/helmapp.go:424-441 | for every iteration order the returned map is fresh and stands for the recursive merge; arguments and shared sub-maps are not modified; terminates by nesting depth |
| GoMap.MergeInto | internal/controller/helmapp.go:429-439 | the loop over b turns out into the merge of out and b, touching out alone |
| GoMap.MapObject.Overlay | internal/controller/helmapp.go:426-428 | the copying loop yields the right-biased union, for every iteration order |
| Effects.ComponentConverges | internal/controller/helmapp.go:281-398 | when no call fails, a matching release is left alone and any other becomes the next revision, deployed, made from the located chart and effective values; the status entry describes it; what these values and charts are is in ComponentStore |
| Effects.ComponentDeploysRightly | internal/controller/helmapp.go:326-357 | a component's pass installs only its own name and only when missing, and upgrades only its own name and only when present and changed |
| Effects.ComponentTrace | internal/controller/helmapp.go:295-378 | the exact calls of a component's pass from the replies: locate, load and look up until one fails, then install if missing or upgrade if not up to date, then parse the manifest if there is a release to describe |
| Effects.ComponentStore | internal/controller/helmapp.go:285-357 | the exact store after it: unchanged, unless an examined component was not up to date and its deployment leaves a record, which is the next revision, deployed or failed, made from the component's chart found at the repository's URL and from its own values, merged over the global ones unless it ignores those |
| Effects.ComponentEntry | internal/controller/helmapp.go:287-398 | the exact status entry: status and revision of the release that is up to date or just recorded, with its resources only if the manifest is parsed, and "unknown" otherwise; and when it is in error |
| Effects.ComponentsAdvance | internal/controller/helmapp.go:110-118 | with distinct names, and whatever fails, each release takes at most the one step of its own component |
| Effects.ComponentsFrame | internal/controller/helmapp.go:110-118 | the component loop changes no release outside the spec and loses none |
| Effects.ComponentsConverge | internal/controller/helmapp.go:110-118 | when no call fails every component of the list converges and is described in its place |
| Effects.ComponentsSplit | internal/controller/helmapp.go:110-118 | the components of a list are reconciled part after part, first part first |
| Removal.UninstallExact | internal/controller/helmapp.go:400-421 | exactly, from the replies: the lookup is the first call and a failed one ends it; a release that is there is uninstalled and goes unless that fails without effect; a missing one counts as gone |
| Removal.SweepOne | internal/controller/helmapp.go:120-140 | one recorded entry: untouched if desired or nameless, else one uninstall, whose failure keeps it marked failed with its version and resources |
| Removal.SweepSplit | internal/controller/helmapp.go:120-140 | a list is swept part after part, first part first |
| Removal.SweepExact | internal/controller/helmapp.go:120-140 | the entries kept are exactly the recorded ones that are named, not desired and failed to uninstall, in order, marked failed, with version and resources carried over |
| Removal.SweepEffect | internal/controller/helmapp.go:120-140 | the sweep uninstalls only recorded names outside the spec, and each of those is gone or kept |
| Removal.TeardownOne | internal/controller/helmapp.go:213-236 | one recorded entry: dropped if nameless, else one uninstall, whose failure keeps it marked failed |
| Removal.TeardownSplit | internal/controller/helmapp.go:213-236 | a list is torn down part after part, last part first |
| Removal.TeardownExact | internal/controller/helmapp.go:210-236 | the backwards loop keeps exactly the entries whose uninstall failed, in original order, marked failed |
| Removal.TeardownVisits | internal/controller/helmapp.go:213-218 | every named entry is looked up exactly once, last to first |
| Removal.TeardownEffect | internal/controller/helmapp.go:210-236 | the teardown only removes recorded releases, and each is gone or kept |
| Removal.TeardownCost | internal/controller/helmapp.go:210-236 | every entry kept has cost a failed call |
| PhaseLaws.CalculateOverallPhase | internal/controller/helmapp.go:164-193 | the loop with its two flags computes the phase defined by quantifiers over the entries |
| PhaseLaws.PhaseOfConcat | internal/controller/helmapp.go:164-193 | the phase of two lists together is the more severe of their phases, with UNKNOWN for the empty list |
| PhaseLaws.PhaseOfPermutation | internal/controller/helmapp.go:164-193 | the order of the entries does not matter |
| PhaseLaws.PhaseIff | internal/controller/helmapp.go:164-193 | exactly when each of the five phases is given, with UNKNOWN for the empty list even while deleting |
| Passes.StatusExact | internal/controller/helmapp.go:104-150 | a written status lists the spec's names in order, then exactly the surviving old entries, with the phase of that list |
| Passes.NothingForgotten | internal/controller/helmapp.go:120-140 | every recorded entry is desired, nameless, retained or no longer installed |
| Passes.OutOfReach | internal/controller/helmapp.go:70-162 | no pass touches a release named neither in the spec nor in the status |
| Passes.NeverUninstallsDesired | internal/controller/helmapp.go:120-140 | the uninstall calls of a live pass name only recorded releases outside the spec |
| Passes.Quiescent | internal/controller/helmapp.go:152-161 | a live pass that returns without error or retry leaves no dropped component installed |
| Outcomes.GonePass | internal/controller/helmapp.go:72-77 | a pass that finds no HelmApp is done and does nothing but look |
| Outcomes.DeletionStops | internal/controller/helmapp.go:195-239 | a deletion pass that cannot read the object or create a Helm client stops there with an error, one that finds no status panics; neither changes anything |
| Outcomes.DeletionOutcomeIff | internal/controller/helmapp.go:210-254 | any other deletion pass is queued again exactly if its status write succeeds and some uninstall fails, done exactly if none fails and both writes succeed, and in error otherwise; its calls and its store |
| Outcomes.DeletionWrites | internal/controller/helmapp.go:222-251 | the status it writes lists exactly the failed entries, marked so, with the phase DELETING if there are any and UNKNOWN if not; the object goes exactly if the removal of the finalizer takes effect |
| Outcomes.LiveStops | internal/controller/helmapp.go:84-103 | a live pass stops at the first of its opening calls that fails, and panics without a repository for its components; it changes nothing but the finalizer |
| Outcomes.LiveOutcomeIff | internal/controller/helmapp.go:104-161 | any other live pass reconciles, sweeps, and writes the entries of both; it is in error exactly if that write is answered with one, asks for a retry exactly if not and an entry is marked failed, and is done otherwise |
| Protocol.SuccessfulWriteSyncs | internal/controller/helmapp.go:142-161 | after a live pass that reports its status written, the status names every owned release |
| Protocol.HelmAppPassTracks | internal/controller/helmapp.go:70-255 | every pass keeps each owned release named in the spec or status, and in the status once deleting |
| Protocol.NothingLeftWhenReleased | internal/controller/helmapp.go:244-251 | when a pass removes the finalizer no owned release is left |
| Protocol.EditTracksIff | internal/controller/helmapp.go:104-140 | a spec edit keeps track of every release exactly when each one missing from the status is in the new spec |
| Protocol.DeleteTracksIff | internal/controller/helmapp.go:79-82 | a deletion keeps track of every release exactly when the status names them all |
| Protocol.UntrackedStays | internal/controller/helmapp.go:70-255 | a release that lost its place in spec and status survives any number of passes, including the object's removal |
| Protocol.IopPassWrites | internal/istio/iop.go:45-113 | a pass of the operator's reconciler touches no release and at most creates the HelmApp, replaces the spec of a managed one, or deletes a managed one |
| OperatorPasses.OperatorOutcomeIff | internal/istio/iop.go:45-113 | a pass of the operator's reconciler makes its planned calls up to the first that fails; it is done exactly if none fails and the operator is absent, deleted, or has a spec that can be translated, and in error otherwise |
| OperatorPasses.OperatorWrites | internal/istio/iop.go:45-113 | each write has its effect exactly if it is made and takes effect: the HelmApp created or updated with the translated spec, or deleted; the finalizer added, or removed with the operator |
| Protocol.IopPassSupervises | internal/istio/iop.go:45-97 | it keeps a managed live HelmApp under an operator that holds its finalizer |
| Protocol.StepKeepsInvariantIff | internal/istio/iop.go:45-113 | a pass or user change keeps release tracking and ownership exactly if it is a pass of the HelmApp reconciler, or deletes a HelmApp only when its status names every owned release and replaces its spec only by one naming those the status does not |
| Protocol.RunsKeepInvariantIff | internal/controller/helmapp.go:70-255 | release tracking and ownership hold in every state of a run, with any interleaving and failures, exactly if every step of it is such a step |
| Protocol.NoLeaks | internal/controller/helmapp.go:70-255 | over all such runs an owned release has a HelmApp with its finalizer that names it, and once the IstioOperator is gone a managed one is terminating |
| Deletion.RepeatCost | internal/controller/helmapp.go:195-255 | n passes over a deleted object let it go or meet at least n failed calls |
| Deletion.DeletionEndsIff | internal/controller/helmapp.go:195-255 | with at most F failures deletion is over after F + 1 passes exactly if the object had a status, and otherwise never |
| Deletion.RepeatShrinks | internal/controller/helmapp.go:210-236 | over all deletion passes releases only disappear, and only recorded ones |
| Deletion.DeletionClearsIff | internal/controller/helmapp.go:195-255 | deleting a HelmApp leaves nothing it owns exactly when its status was up to date at that moment |
| Deletion.DisallowedLeaks | internal/controller/helmapp.go:120-140 | a step that `Protocol.Allowed` excludes, dropping an unrecorded release from the spec or deleting the object before its status names it, leaves that release in place after any number of later passes |
| Convergence.SuccessfulPass | internal/controller/helmapp.go:70-162 | the whole store and status after a pass without failures |
| Convergence.SuccessStores | internal/controller/helmapp.go:285-357 | each release after such a pass has the component's values, merged over the global ones exactly if it does not ignore those; it is unchanged if it was up to date, and otherwise the next revision, deployed from the component's chart found at the repository's URL |
| Convergence.SuccessMatches | internal/controller/helmapp.go:326-357 | after a successful pass a release matches exactly if its chart is pinned or it matched before, and is deployed exactly if it did not match before or was deployed already |
| Convergence.SuccessRealizesIff | internal/controller/helmapp.go:104-140 | beside any foreign releases, a successful pass leaves exactly what the spec asks for if and only if each component is pinned or matched before |
| History.DeploysRealizeLastIff | internal/controller/helmapp.go:104-140 | after any sequence of specs, each reconciled successfully beside any foreign releases, the owned names are those of the last spec, and each release is what it asks for exactly if every component of it is pinned or matched before the last step |
| History.DeploysRealizeLast | internal/controller/helmapp.go:104-140 | in particular when the charts of the last spec, whatever those of the others, are pinned |
| History.PathIndependenceIff | internal/controller/helmapp.go:104-140 | two such histories ending in the same spec agree on chart versions and values exactly if each component is pinned, or matched before the last step of both or of neither |
| History.PathIndependence | internal/controller/helmapp.go:104-140 | so they always agree when the last spec's charts are pinned |
| History.FreshInstallIff | internal/controller/helmapp.go:104-140 | a history leaves what installing its last spec alone would exactly if each component is pinned or did not match before the last step |
| History.RunsAgreeIff | internal/controller/helmapp.go:70-162 | any two runs of allowed steps of both controllers and their users, beside any foreign releases and with any failures on the way, that end in a successful pass over the same spec leave its names alone, and agree on chart versions and values exactly if each component is pinned, or matched before the last pass of both or of neither |
| History.ConvergesIff | internal/controller/helmapp.go:70-162 | with at most F failed calls the store is exactly what an unchanged spec asks for after F + 1 passes and ever after, if each component is pinned or matches already; otherwise it never is |
| Convergence.AtMostOneRevision | internal/controller/helmapp.go:326-357 | over any number of passes and failures an unchanged pinned component gains at most one revision |
| Convergence.MatchingReleaseStays | internal/controller/helmapp.go:336-340 | a release with the requested version and values is never touched again, even if failed or from another chart |
| Convergence.UnpinnedGrows | internal/controller/helmapp.go:443-448 | a component whose chart is found at another version gains a revision in every successful pass |
| Fixpoints.SettledStore | internal/controller/helmapp.go:336-340 | once everything matches and nothing else is recorded, a pass leaves the store alone whatever fails |
| Fixpoints.FixpointIff | internal/controller/helmapp.go:326-357 | over any spec, after one successful pass a second leaves the store alone exactly if components of one name ask for the same and one of them is pinned unless the release matched before; with distinct non-empty names it then writes the same status |
| Fixpoints.SettlesIff | internal/controller/helmapp.go:110-118 | that condition is agreement alone when all charts are pinned, and "pinned or matched before" when names are distinct |
| Fixpoints.DisagreementGrows | internal/controller/helmapp.go:110-118 | two components of one name anywhere in a spec that ask for different versions or values give their release a revision or more in every successful pass, for ever |
| Convergence.SucceededIsTrue | internal/controller/helmapp.go:142-150 | a pass that writes SUCCEEDED records only the spec's names and has every component deployed: unchanged and matching, or new and made from the located chart and effective values; it matches exactly if pinned or unchanged |
| Retry.ReportsFailedIff | internal/controller/helmapp.go:295-398 | a component is reported failed exactly if it is examined and its matching release is recorded failed or Helm records its deployment as failed; it is reported with nothing of its release exactly if it is not examined or its deployment leaves no record; which of these are errors |
| Retry.RetryIff | internal/controller/helmapp.go:142-161 | a live pass asks for a retry exactly if its status is written and some component is reported failed in that sense or some uninstall of a dropped one fails; it ends without error or retry exactly if the status is written and neither is the case |
| Retry.FailedForGood | internal/controller/helmapp.go:336-340 | a matching release recorded as failed is the same after any number of passes, and every later successful pass asks for a retry |
| Convergence.PanicsIff | internal/controller/helmapp.go:239-301 | the exact states in which a pass whose calls succeed dereferences nil |
| Limits.LostStatusWriteLeaks | internal/controller/helmapp.go:152-154 | a lost status write followed by a deletion leaves a release behind |
| Limits.QuietFailure | internal/controller/helmapp.go:295-335 | each of the four calls of a first install, failing unrecorded, ends the pass without error or retry and with nothing installed |
| Limits.FailedInstallStays | internal/controller/helmapp.go:328-340 | a first install recorded as failed stays failed and at its first revision through every later pass, each of which asks for a retry, though nothing fails any more |
| Limits.DeletedTooSoon | internal/controller/helmapp.go:238-239 | an object deleted before its first status write is never let go |
| Limits.DuplicatesNeverSettle | internal/controller/helmapp.go:110-118 | two components of one name with different versions or values, both pinned, add exactly two revisions in every pass |
| HelmAppController.HelmAppReconciler.Reconcile | internal/controller/helmapp.go:70-162 | the imperative pass computes the outcome and the whole new state of the specification |
| HelmAppController.HelmAppReconciler.ReconcileDelete | internal/controller/helmapp.go:195-255 | the imperative deletion pass does the same |
| HelmAppController.HelmAppReconciler.ReconcileComponent | internal/controller/helmapp.go:281-398 | status entry, error flag and new world of one component |
| HelmAppController.HelmAppReconciler.ReconcileComponents | internal/controller/helmapp.go:110-118 | the appending loop over the components |
| HelmAppController.HelmAppReconciler.Sweep | internal/controller/helmapp.go:120-140 | the loop over the recorded entries |
| HelmAppController.HelmAppReconciler.Teardown | internal/controller/helmapp.go:210-236 | the backwards loop splicing the array in place leaves exactly the specified list, and reports whether it is empty |
| HelmAppController.HelmAppReconciler.UninstallComponent | internal/controller/helmapp.go:400-421 | lookup, then uninstall; a missing release counts as gone |
| HelmAppController.StatusList.RemoveAt | internal/controller/helmapp.go:231-234 | the in-place splice removes exactly entry i |
| IstioLaws.NamesCollideIff | internal/istio/iop.go:135-137 | exactly when two operators generate the same release name |
| IstioLaws.HyphenFreeNeverCollide | internal/istio/iop.go:135-137 | operators without hyphens in their names never do |
| IstioLaws.HyphensCollide | internal/istio/iop.go:135-137 | a concrete pair that does |
| IstioLaws.TranslationShape | internal/istio/iop.go:176-317 | names and charts of the list: base, istiod, active ingress then egress gateways in order, cni, ztunnel |
| IstioLaws.TranslationVersions | internal/istio/iop.go:138-159 | every named component asks for the tag if it is not empty, else for 1.21.1, and takes the global values |
| IstioLaws.TranslationFailsIff | internal/istio/iop.go:221-240 | the translation returns an error exactly if istiod is enabled with resources and the values have no pilot section |
| IstioLaws.DistinctIff | internal/istio/iop.go:176-317 | the exact condition under which the generated names are pairwise distinct |
| IstioValues.TranslationExact | internal/istio/iop.go:130-345 | the whole HelmApp from the operator's spec and tag: repository, global values, and the list, with name, chart, version and values of the component at each position; base has no values of its own, istiod and each active gateway those of the next rows |
| IstioValues.IstiodValues | internal/istio/iop.go:186-235 | which sections istiod's values have and what each holds under each key: free over typed mesh configuration, the pilot section with the component's resources in it, the webhook section, the affinity |
| IstioValues.IstiodDetermined | internal/istio/iop.go:186-243 | no two different values satisfy that description |
| IstioValues.GatewayTranslated | internal/istio/iop.go:257-290 | which sections a gateway's values have and what each holds under each key: its own affinity and resources, and the ingress gateway's autoscaling settings, the minimum only with the switch |
| IstioValues.GatewayDetermined | internal/istio/iop.go:257-290 | no two different values satisfy that description |
| IstioValues.MeshOverlayIsMergeIff | internal/istio/iop.go:189-202 | exactly when the mesh overlay equals the deep merge |
| IstioController.OverlayMeshConfig | internal/istio/iop.go:196-200 | the overlay loop yields the right-biased union for every iteration order |
| IstioController.IstioOperatorReconciler.ConvertIopToHelmApp | internal/istio/iop.go:130-345 | the appending translation computes the specified spec or fails |
| IstioController.IstioOperatorReconciler.CreateOrUpdateHelmApp | internal/istio/iop.go:347-382 | create, update or leave alone, with the whole new state |
| IstioController.IstioOperatorReconciler.Reconcile | internal/istio/iop.go:77-113 | the imperative pass computes the outcome and the whole new state of the specification |
| EndToEnd.OperatorToReleases | internal/istio/iop.go:99-112 | one successful pass of each controller, beside any foreign releases: base's release has the global values, istiod's and each active gateway's the values described above merged over them; each has the version of the tag, or 1.21.1, exactly if it was up to date or its chart is found at that version; recorded others are gone, all the rest unchanged; and exactly when the wanted names are all that is left |
| EndToEnd.LeavingCosts | internal/istio/iop.go:45-73 | n passes over a deleted operator either let it go with its HelmApp marked for deletion or meet n failed calls, and touch no release |
| EndToEnd.OperatorDeletionClears | internal/istio/iop.go:45-73 | with at most F failed calls of either controller, F + 1 passes of each remove a deleted operator and its HelmApp, and nothing it owned is left exactly if its status was up to date |

## Left out

- Helm, the registry, chart loading, manifest parsing and the Kubernetes client, beyond the calls described above.
- Whether Helm itself alters values between a request and its record, for example by reusing old ones, or by storing an empty map as none.
- Release histories longer than one: the program compares the last element and reports the first, so status entries such as the one Fixpoints.FixpointIff calls unchanged may show an older revision.
- Merging an IstioOperator with its profile: the merged spec is an input, and reading the profile one call that may fail.
- Translating typed parts of an IstioOperator to nested maps: the resulting maps are inputs.
- Messages of status entries, error texts, log lines and retry delays.
- The `resourcesTotal` field, which always equals the number of resources.
- The `repo` field of a component, which the program never reads, and a HelmApp without a spec.
- Finalizers of others on the same objects, and users editing finalizers or the ownership label.
- Several HelmApps sharing release names in one namespace, except for the naming results.
- Stale caches: reads see the current state.
- Manager setup, generated clients, custom resource definitions, charts and scripts.
- History.PathIndependenceIff: compares names, chart versions and values but not charts, because the program does not compare them either.
- Convergence.AtMostOneRevision: for components whose chart is found at the requested version; without that the claim is false, see Convergence.UnpinnedGrows.
- Protocol.NoLeaks: for runs of allowed steps; that they are allowed is necessary by Protocol.RunsKeepInvariantIff and Deletion.DisallowedLeaks, and without it the claim is false, see Limits.LostStatusWriteLeaks.
