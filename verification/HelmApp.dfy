/** What one pass of the HelmApp reconciler computes, as functions of the stored state and the oracle. */
module HelmApp {
  import opened Prelude
  import opened Values
  import opened Types
  import opened Helm

  // ---- One component ----

  function EffectiveValues(spec: Spec, c: Component): Fields {
    if c.ignoreGlobalValues then AsMap(c.values) else Merge(AsMap(spec.globalValues), AsMap(c.values))
  }

  /** The chart Helm finds for a component. */
  function Located(o: Oracle, spec: Spec, c: Component): Chart
    requires spec.repo.Some?
  {
    Chart(c.chart, o.published(ChartRef(spec.repo.value.url, c.chart, c.version)))
  }

  predicate HasConfigChanged(r: Release, values: Fields, version: string) {
    r.chart.version != version || r.values != values
  }

  datatype ComponentRun = ComponentRun(status: ComponentStatus, failed: bool, world: World)

  /** The status entry for the release at hand, if any; its resources come from parsing the manifest. */
  function Describe(o: Oracle, w: World, name: string, r: Option<Release>, failed: bool): ComponentRun {
    if r.None? then
      ComponentRun(ComponentStatus(name, UNKNOWN_STATUS, None, []), failed, w)
    else
      var (reply, w') := Ask(o, w, ParseManifest(name));
      var resources := if reply.Ok? then r.value.resources else [];
      ComponentRun(ComponentStatus(name, r.value.status, Some(r.value.revision), resources), failed, w')
  }

  function DeployComponent(o: Oracle, spec: Spec, c: Component, w: World, call: Call): ComponentRun
    requires spec.repo.Some?
  {
    var (reply, r, w') := Deploy(o, w, call, c.name, Located(o, spec, c), EffectiveValues(spec, c));
    Describe(o, w', c.name, r, !reply.Ok?)
  }

  function ReconcileComponent(o: Oracle, spec: Spec, c: Component, w: World): ComponentRun
    requires spec.repo.Some?
  {
    var (r1, w1) := Ask(o, w, LocateChart(c.chart));
    if !r1.Ok? then Describe(o, w1, c.name, None, true) else
    var (r2, w2) := Ask(o, w1, LoadChart(c.chart));
    if !r2.Ok? then Describe(o, w2, c.name, None, true) else
    var (history, w3) := RunHistory(o, w2, c.name);
    match history
    case LookupFailed => Describe(o, w3, c.name, None, true)
    case NotFound => DeployComponent(o, spec, c, w3, Install(c.name))
    case Found(r) =>
      if HasConfigChanged(r, EffectiveValues(spec, c), c.version)
      then DeployComponent(o, spec, c, w3, Upgrade(c.name))
      else Describe(o, w3, c.name, Some(r), false)
  }

  /** The components of the spec, first to last. */
  function ReconcileComponents(o: Oracle, spec: Spec, cs: seq<Component>, w: World): (seq<ComponentStatus>, World)
    requires spec.repo.Some? || cs == []
    decreases cs
  {
    if cs == [] then ([], w) else
    var run := ReconcileComponent(o, spec, cs[0], w);
    var (rest, w') := ReconcileComponents(o, spec, cs[1..], run.world);
    ([run.status] + rest, w')
  }

  // ---- Uninstalling ----

  /** Whether the release is gone as far as the reconciler can tell. */
  function UninstallComponent(o: Oracle, w: World, name: string): (bool, World) {
    var (release, w1) := RunGet(o, w, name);
    match release
    case LookupFailed => (false, w1)
    case NotFound => (true, w1)
    case Found(_) => var (reply, w2) := RunUninstall(o, w1, name); (reply.Ok?, w2)
  }

  function MarkFailed(s: ComponentStatus): ComponentStatus {
    s.(status := FAILED_STATUS)
  }

  /** The recorded components that the spec no longer names, first to last. */
  function Sweep(o: Oracle, desired: set<string>, recorded: seq<ComponentStatus>, w: World)
    : (seq<ComponentStatus>, World)
    decreases recorded
  {
    if recorded == [] then ([], w)
    else if recorded[0].name in desired || recorded[0].name == "" then Sweep(o, desired, recorded[1..], w)
    else
      var (gone, w1) := UninstallComponent(o, w, recorded[0].name);
      var (rest, w2) := Sweep(o, desired, recorded[1..], w1);
      ((if gone then [] else [MarkFailed(recorded[0])]) + rest, w2)
  }

  /** Every recorded component, last to first; what is left keeps its order. */
  function Teardown(o: Oracle, recorded: seq<ComponentStatus>, w: World): (seq<ComponentStatus>, World)
    decreases recorded
  {
    if recorded == [] then ([], w) else
    var last, rest := recorded[|recorded| - 1], recorded[..|recorded| - 1];
    if last.name == "" then Teardown(o, rest, w) else
    var (gone, w1) := UninstallComponent(o, w, last.name);
    var (kept, w2) := Teardown(o, rest, w1);
    (kept + (if gone then [] else [MarkFailed(last)]), w2)
  }

  // ---- The phase ----

  function OverallPhase(deleting: bool, statuses: seq<ComponentStatus>): Phase {
    if statuses == [] then UNKNOWN
    else if deleting then DELETING
    else if exists s | s in statuses :: s.status == FAILED_STATUS then FAILED
    else if forall s | s in statuses :: s.status == DEPLOYED then SUCCEEDED
    else RECONCILING
  }

  // ---- Passes ----

  /** Creating a Helm client takes two calls. */
  function OpenHelm(o: Oracle, w: World): (bool, World) {
    var (r1, w1) := Ask(o, w, NewConfig);
    if !r1.Ok? then (false, w1) else
    var (r2, w2) := Ask(o, w1, InitHelm);
    (r2.Ok?, w2)
  }

  function WriteStatus(o: Oracle, s: State, app: App, status: Status): (bool, State) {
    var (reply, w) := Ask(o, s.world, UpdateStatus);
    (reply.Ok?, s.(app := Some(if Persisted(reply) then app.(status := Some(status)) else app), world := w))
  }

  /** A pass over an object that is not being deleted and has the finalizer. */
  function ReconcileLive(o: Oracle, s: State): (Outcome, State)
    requires s.app.Some?
  {
    var app := s.app.value;
    var (ready, w0) := OpenHelm(o, s.world);
    if !ready then (Error, s.(world := w0)) else
    if app.spec.repo.None? && app.spec.components != [] then (Panic, s.(world := w0)) else
    var (statuses, w1) := ReconcileComponents(o, app.spec, app.spec.components, w0);
    var recorded := if app.status.None? then [] else app.status.value.components;
    var (retained, w2) := Sweep(o, Names(app.spec.components), recorded, w1);
    var all := statuses + retained;
    var phase := OverallPhase(app.deleting, all);
    var (written, s') := WriteStatus(o, s.(world := w2), app, Status(phase, all));
    (if !written then Error else if phase == FAILED then RequeueAfter else Done, s')
  }

  function ReconcileDelete(o: Oracle, s: State): (Outcome, State)
    requires s.app.Some?
  {
    var app := s.app.value;
    var (ready, w0) := OpenHelm(o, s.world);
    if !ready then (Error, s.(world := w0)) else
    if app.status.None? then (Panic, s.(world := w0)) else
    var (kept, w1) := Teardown(o, app.status.value.components, w0);
    var (written, s1) := WriteStatus(o, s.(world := w1), app, Status(OverallPhase(app.deleting, kept), kept));
    if !written then (Error, s1) else
    if kept != [] then (Requeue, s1) else
    var (reply, w2) := Ask(o, s1.world, UpdateApp);
    (if reply.Ok? then Done else Error,
     if Persisted(reply) then s1.(app := None, world := w2) else s1.(world := w2))
  }

  /** One pass of the HelmApp reconciler. */
  function Reconcile(o: Oracle, s: State): (Outcome, State) {
    var (reply, w) := Ask(o, s.world, GetApp);
    var s0 := s.(world := w);
    if !reply.Ok? then (Error, s0)
    else if s.app.None? then (Done, s0)
    else if s.app.value.deleting then ReconcileDelete(o, s0)
    else if s.app.value.finalizer then ReconcileLive(o, s0)
    else
      var (r1, w1) := Ask(o, w, UpdateApp);
      var s1 := State(s.iop, Some(if Persisted(r1) then s.app.value.(finalizer := true) else s.app.value), w1);
      if !r1.Ok? then (Error, s1) else ReconcileLive(o, s1)
  }
}
