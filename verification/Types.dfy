/** The API objects of the operator, the Helm release store, and the calls made to both. */
module Types {
  import opened Prelude
  import opened Values

  // ---- HelmApp ----

  datatype Repo = Repo(name: string, url: string)

  datatype Component = Component(
    name: string, chart: string, version: string, values: Option<Fields>, ignoreGlobalValues: bool)

  datatype Spec = Spec(components: seq<Component>, globalValues: Option<Fields>, repo: Option<Repo>)

  const DEPLOYED := "deployed"
  const FAILED_STATUS := "failed"
  const UNKNOWN_STATUS := "unknown"

  /** version is the release revision, or nothing where the program writes "unknown". */
  datatype ComponentStatus = ComponentStatus(
    name: string, status: string, version: Option<nat>, resources: seq<string>)

  datatype Phase = UNKNOWN | RECONCILING | SUCCEEDED | FAILED | DELETING

  datatype Status = Status(phase: Phase, components: seq<ComponentStatus>)

  /** managed: it carries the operator's ownership label. */
  datatype App = App(spec: Spec, status: Option<Status>, finalizer: bool, deleting: bool, managed: bool)

  function Names(components: seq<Component>): set<string> {
    set c | c in components :: c.name
  }

  function StatusNames(statuses: seq<ComponentStatus>): set<string> {
    set s | s in statuses :: s.name
  }

  /** The names the stored status records; none when there is no status yet. */
  function Recorded(app: App): set<string> {
    if app.status.None? then {} else StatusNames(app.status.value.components)
  }

  predicate Distinct(components: seq<Component>) {
    forall i, j | 0 <= i < j < |components| :: components[i].name != components[j].name
  }

  // ---- IstioOperator ----

  datatype K8sSpec = K8sSpec(affinity: Option<Fields>, resources: Option<Fields>)

  datatype Gateway = Gateway(name: string, enabled: bool, k8s: Option<K8sSpec>)

  datatype Components = Components(
    base: bool, pilot: bool, pilotK8s: Option<K8sSpec>,
    ingressGateways: seq<Gateway>, egressGateways: seq<Gateway>, cni: bool, ztunnel: bool)

  /** An IstioOperator spec after the profile has been merged in. */
  datatype IopSpec = IopSpec(meshConfig: Option<Fields>, values: Fields, components: Option<Components>)

  /** tag is what the user wrote, before the profile is merged in. */
  datatype Iop = Iop(name: string, tag: string, spec: Option<IopSpec>, finalizer: bool, deleting: bool)

  // ---- Helm ----

  datatype Chart = Chart(name: string, version: string)

  datatype Release = Release(chart: Chart, values: Fields, status: string, revision: nat, resources: seq<string>)

  type Releases = map<string, Release>

  // ---- The outside world ----

  datatype Call =
    | GetApp | CreateApp | UpdateApp | DeleteApp | UpdateStatus
    | GetIop | UpdateIop | ReadProfile
    | NewConfig | InitHelm
    | LocateChart(chart: string) | LoadChart(chart: string)
    | History(name: string) | Install(name: string) | Upgrade(name: string)
    | GetRelease(name: string) | Uninstall(name: string)
    | ParseManifest(name: string)

  /** The release store and every call made so far, oldest first. */
  datatype World = World(releases: Releases, trace: seq<Call>)

  datatype ChartRef = ChartRef(repo: string, chart: string, version: string)

  /** What the model leaves to the environment: the answer to the k-th call, the version of the
      chart found for a reference, and the resources a chart renders. */
  datatype Oracle = Oracle(
    replies: nat -> Reply,
    published: ChartRef -> string,
    rendered: (Chart, Fields) -> seq<string>)

  /** Everything that outlives a reconcile: the stored objects and the world. */
  datatype State = State(iop: Option<Iop>, app: Option<App>, world: World)

  /** How a reconcile returns to the work queue. */
  datatype Outcome = Done | Requeue | RequeueAfter | Error | Panic

  /** Every call between two worlds was answered with success. */
  ghost predicate AllOk(o: Oracle, before: World, after: World) {
    forall i: nat | |before.trace| <= i < |after.trace| :: o.replies(i).Ok?
  }

  function AsMap(fields: Option<Fields>): Fields {
    if fields.None? then map[] else fields.value
  }
}
