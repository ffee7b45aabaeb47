/** The translation of an IstioOperator into a HelmApp spec, and one pass of its reconciler. */
module Istio {
  import opened Prelude
  import opened Values
  import opened Types
  import opened Helm

  // ---- Translation ----

  const DEFAULT_VERSION := "1.21.1"
  const ISTIO_REPO := Repo("istio", "https://istio-release.storage.googleapis.com/charts")

  function BuildName(operator: string, part: string): string {
    "iop-" + operator + "-" + part
  }

  function ChartVersion(tag: string): string {
    if tag != "" then tag else DEFAULT_VERSION
  }

  /** The map a value holds; empty when it is not a map. */
  function StructOf(v: Value): Fields {
    if v.Object? then v.fields else map[]
  }

  function Section(values: Fields, key: string): Option<Fields> {
    if key in values then Some(StructOf(values[key])) else None
  }

  function PutSection(m: Fields, key: string, section: Option<Fields>): Fields {
    if section.Some? then m[key := Object(section.value)] else m
  }

  function GlobalValues(values: Fields): Option<Fields> {
    if "global" in values && values["global"].Object? then Some(values["global"].fields) else None
  }

  /** The typed mesh configuration, overwritten key by key with the one under values. */
  function MeshConfig(spec: IopSpec): Option<Fields> {
    var typed, free := spec.meshConfig, Section(spec.values, "meshConfig");
    if typed.Some? && free.Some? then Some(typed.value + free.value)
    else if typed.Some? then typed
    else free
  }

  function Affinity(k8s: Option<K8sSpec>): Option<Fields> {
    if k8s.Some? then k8s.value.affinity else None
  }

  function Resources(k8s: Option<K8sSpec>): Option<Fields> {
    if k8s.Some? then k8s.value.resources else None
  }

  /** Nothing when the resources would be put, untranslated, in a section that is not there. */
  function PilotSection(spec: IopSpec, k8s: Option<K8sSpec>): Option<Option<Fields>> {
    var pilot, resources := Section(spec.values, "pilot"), Resources(k8s);
    if resources.None? then Some(pilot)
    else if pilot.None? then None
    else Some(Some(pilot.value["resources" := Object(resources.value)]))
  }

  function PilotValues(spec: IopSpec, k8s: Option<K8sSpec>): Option<Fields> {
    var pilot := PilotSection(spec, k8s);
    if pilot.None? then None else
    var m := PutSection(map[], "meshConfig", MeshConfig(spec));
    var m := PutSection(m, "sidecarInjectorWebhook", Section(spec.values, "sidecarInjectorWebhook"));
    var m := PutSection(m, "pilot", pilot.value);
    Some(PutSection(m, "affinity", Affinity(k8s)))
  }

  function BoolOf(v: Value): bool {
    v.Bool? && v.b
  }

  function NumberOf(v: Value): real {
    if v.Number? then v.n else 0.0
  }

  /** The autoscaling section, taken from the ingress gateway values for every gateway. */
  function Autoscaling(values: Fields): Option<Fields> {
    var gateways := Section(values, "gateways");
    if gateways.None? then None else
    var ingress := Section(gateways.value, "istio-ingressgateway");
    if ingress.None? || "autoscaleEnabled" !in ingress.value then None else
    var enabled := map["enabled" := Bool(BoolOf(ingress.value["autoscaleEnabled"]))];
    Some(if "autoscaleMin" in ingress.value
         then enabled["minReplicas" := Number(NumberOf(ingress.value["autoscaleMin"]))] else enabled)
  }

  function GatewayValues(gw: Gateway, values: Fields): Fields {
    var m := PutSection(map[], "affinity", Affinity(gw.k8s));
    var m := PutSection(m, "resources", Resources(gw.k8s));
    PutSection(m, "autoscaling", Autoscaling(values))
  }

  /** The component of a gateway that is enabled and named; none otherwise. */
  function GatewayComponent(operator: string, version: string, gw: Gateway, values: Fields): seq<Component> {
    if !gw.enabled || gw.name == "" then []
    else [Component(BuildName(operator, gw.name), "gateway", version, Some(GatewayValues(gw, values)), false)]
  }

  function GatewayComponents(operator: string, version: string, gws: seq<Gateway>, values: Fields): seq<Component> {
    if gws == [] then [] else
    GatewayComponent(operator, version, gws[0], values) + GatewayComponents(operator, version, gws[1..], values)
  }

  function BaseComponent(operator: string, version: string): Component {
    Component(BuildName(operator, "base"), "base", version, None, false)
  }

  function PilotComponent(operator: string, version: string, values: Fields): Component {
    Component(BuildName(operator, "istiod"), "istiod", version, Some(values), false)
  }

  /** cni and ztunnel are appended without a name or a chart. */
  const PLACEHOLDER := Component("", "", "", None, false)

  function When(b: bool, c: Component): seq<Component> {
    if b then [c] else []
  }

  function ConvertComponents(operator: string, version: string, spec: IopSpec, cs: Components): Option<seq<Component>> {
    var pilot := PilotValues(spec, cs.pilotK8s);
    if cs.pilot && pilot.None? then None else
    Some(When(cs.base, BaseComponent(operator, version))
         + (if cs.pilot then [PilotComponent(operator, version, pilot.value)] else [])
         + GatewayComponents(operator, version, cs.ingressGateways, spec.values)
         + GatewayComponents(operator, version, cs.egressGateways, spec.values)
         + When(cs.cni, PLACEHOLDER) + When(cs.ztunnel, PLACEHOLDER))
  }

  /** The HelmApp spec of an operator, or nothing when the translation fails. */
  function Convert(operator: string, tag: string, spec: IopSpec): Option<Spec> {
    var components := if spec.components.None? then Some([])
                      else ConvertComponents(operator, ChartVersion(tag), spec, spec.components.value);
    if components.None? then None
    else Some(Spec(components.value, GlobalValues(spec.values), Some(ISTIO_REPO)))
  }

  // ---- The pass ----

  /** Deleting a stored HelmApp: marked while it has its finalizer, gone otherwise. */
  function Deleted(app: App): Option<App> {
    if app.finalizer then Some(app.(deleting := true)) else None
  }

  function WriteIop(o: Oracle, s: State, iop: Option<Iop>): (Reply, State) {
    var (reply, w) := Ask(o, s.world, UpdateIop);
    (reply, s.(iop := if Persisted(reply) then iop else s.iop, world := w))
  }

  function WriteApp(o: Oracle, s: State, call: Call, app: Option<App>): (Outcome, State) {
    var (reply, w) := Ask(o, s.world, call);
    (if reply.Ok? then Done else Error, s.(app := if Persisted(reply) then app else s.app, world := w))
  }

  function CreateOrUpdate(o: Oracle, s: State, spec: Spec): (Outcome, State) {
    var (reply, w) := Ask(o, s.world, GetApp);
    var s1 := s.(world := w);
    if !reply.Ok? then (Error, s1)
    else if s.app.None? then WriteApp(o, s1, CreateApp, Some(App(spec, None, false, false, true)))
    else if s.app.value.managed && s.app.value.spec != spec
    then WriteApp(o, s1, UpdateApp, Some(s.app.value.(spec := spec)))
    else (Done, s1)
  }

  function IopDelete(o: Oracle, s: State): (Outcome, State)
    requires s.iop.Some?
  {
    var (r1, w1) := Ask(o, s.world, GetApp);
    var s1 := s.(world := w1);
    if !r1.Ok? then (Error, s1) else
    var (deleted, s2) := if s.app.Some? && s.app.value.managed
                         then WriteApp(o, s1, DeleteApp, Deleted(s.app.value)) else (Done, s1);
    if deleted == Error then (Error, s2) else
    var (r3, s3) := WriteIop(o, s2, None);
    (if r3.Ok? then Done else Error, s3)
  }

  function IopLive(o: Oracle, s: State): (Outcome, State)
    requires s.iop.Some?
  {
    var iop := s.iop.value;
    if iop.spec.None? then (Error, s) else
    var (reply, w) := Ask(o, s.world, ReadProfile);
    var s1 := s.(world := w);
    if !reply.Ok? then (Error, s1) else
    var spec := Convert(iop.name, iop.tag, iop.spec.value);
    if spec.None? then (Error, s1) else CreateOrUpdate(o, s1, spec.value)
  }

  /** One pass of the IstioOperator reconciler. */
  function IopReconcile(o: Oracle, s: State): (Outcome, State) {
    var (reply, w) := Ask(o, s.world, GetIop);
    var s0 := s.(world := w);
    if !reply.Ok? then (Error, s0)
    else if s.iop.None? then (Done, s0)
    else if s.iop.value.deleting then IopDelete(o, s0)
    else if s.iop.value.finalizer then IopLive(o, s0)
    else
      var (r1, s1) := WriteIop(o, s0, Some(s.iop.value.(finalizer := true)));
      if r1.Ok? then IopLive(o, s1) else (Error, s1)
  }
}
