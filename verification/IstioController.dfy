/** The IstioOperator reconciler as the program writes it, proved to compute the passes of Istio. */
module IstioController {
  import opened Prelude
  import opened Values
  import opened Types
  import opened ClusterState
  import Helm
  import Istio

  /** for k, v := range free { mesh[k] = v }, in whatever order the keys come. */
  method OverlayMeshConfig(typed: Fields, free: Fields) returns (mesh: Fields)
    ensures mesh == typed + free
  {
    mesh := typed;
    var todo := free.Keys;
    while todo != {}
      invariant todo <= free.Keys
      invariant mesh == typed + (free - todo)
      decreases todo
    {
      var k :| k in todo;
      mesh := mesh[k := free[k]];
      assert mesh == typed + (free - (todo - {k}));
      todo := todo - {k};
    }
    assert free - {} == free;
  }

  class IstioOperatorReconciler {
    const cluster: Cluster

    constructor (cluster: Cluster)
      ensures this.cluster == cluster
    {
      this.cluster := cluster;
    }

    /** The values of istiod, section by section. */
    method PilotValues(spec: IopSpec, k8s: Option<K8sSpec>) returns (values: Option<Fields>)
      ensures values == Istio.PilotValues(spec, k8s)
    {
      var m: Fields := map[];
      if spec.meshConfig.Some? {
        m := m["meshConfig" := Object(spec.meshConfig.value)];
      }
      if "meshConfig" in spec.values {
        var free := Istio.StructOf(spec.values["meshConfig"]);
        if spec.meshConfig.None? {
          m := m["meshConfig" := Object(free)];
        } else {
          var mesh := OverlayMeshConfig(spec.meshConfig.value, free);
          m := m["meshConfig" := Object(mesh)];
        }
      }
      assert m == Istio.PutSection(map[], "meshConfig", Istio.MeshConfig(spec));
      if "sidecarInjectorWebhook" in spec.values {
        m := m["sidecarInjectorWebhook" := Object(Istio.StructOf(spec.values["sidecarInjectorWebhook"]))];
      }
      ghost var before := m;
      if "pilot" in spec.values {
        m := m["pilot" := Object(Istio.StructOf(spec.values["pilot"]))];
      }
      if k8s.Some? && k8s.value.resources.Some? {
        if "pilot" !in spec.values {
          return None;
        }
        var pilot := m["pilot"].fields;
        m := m["pilot" := Object(pilot["resources" := Object(k8s.value.resources.value)])];
      }
      assert m == Istio.PutSection(before, "pilot", Istio.PilotSection(spec, k8s).value);
      if k8s.Some? && k8s.value.affinity.Some? {
        m := m["affinity" := Object(k8s.value.affinity.value)];
      }
      values := Some(m);
    }

    /** Append the components of the gateways that are enabled and named. */
    method BuildGateways(operator: string, version: string, gws: seq<Gateway>, values: Fields,
                         components: seq<Component>)
      returns (all: seq<Component>)
      ensures all == components + Istio.GatewayComponents(operator, version, gws, values)
    {
      all := components;
      assert gws[0..] == gws;
      for i := 0 to |gws|
        invariant all + Istio.GatewayComponents(operator, version, gws[i..], values) ==
                  components + Istio.GatewayComponents(operator, version, gws, values)
      {
        assert gws[i..][1..] == gws[i + 1..];
        var gw := gws[i];
        if gw.enabled && gw.name != "" {
          all := all + [Component(Istio.BuildName(operator, gw.name), "gateway", version,
                                  Some(Istio.GatewayValues(gw, values)), false)];
        }
        assert all + Istio.GatewayComponents(operator, version, gws[i + 1..], values) ==
               components + Istio.GatewayComponents(operator, version, gws, values);
      }
    }

    /** The components of a HelmApp, appended one kind after the other. */
    method ConvertIopToHelmApp(operator: string, tag: string, spec: IopSpec) returns (helmApp: Option<Spec>)
      ensures helmApp == Istio.Convert(operator, tag, spec)
    {
      var version := if tag != "" then tag else Istio.DEFAULT_VERSION;
      var components: seq<Component> := [];
      if spec.components.Some? {
        var cs := spec.components.value;
        if cs.base {
          components := components + [Istio.BaseComponent(operator, version)];
        }
        assert components == Istio.When(cs.base, Istio.BaseComponent(operator, version));
        var pilot: seq<Component> := [];
        if cs.pilot {
          var values := PilotValues(spec, cs.pilotK8s);
          if values.None? { return None; }
          pilot := [Istio.PilotComponent(operator, version, values.value)];
          components := components + pilot;
        }
        assert components == Istio.When(cs.base, Istio.BaseComponent(operator, version)) + pilot;
        components := BuildGateways(operator, version, cs.ingressGateways, spec.values, components);
        components := BuildGateways(operator, version, cs.egressGateways, spec.values, components);
        ghost var before := components;
        if cs.cni {
          components := components + [Istio.PLACEHOLDER];
        }
        assert components == before + Istio.When(cs.cni, Istio.PLACEHOLDER);
        if cs.ztunnel {
          components := components + [Istio.PLACEHOLDER];
        }
        assert components == before + Istio.When(cs.cni, Istio.PLACEHOLDER) + Istio.When(cs.ztunnel, Istio.PLACEHOLDER);
        assert Some(components) == Istio.ConvertComponents(operator, version, spec, cs);
      }
      helmApp := Some(Spec(components, Istio.GlobalValues(spec.values), Some(Istio.ISTIO_REPO)));
    }

    method CreateOrUpdateHelmApp(spec: Spec) returns (outcome: Outcome)
      modifies cluster
      ensures (outcome, cluster.Now()) == Istio.CreateOrUpdate(cluster.oracle, old(cluster.Now()), spec)
    {
      var reply := cluster.Ask(GetApp);
      if !reply.Ok? { return Error; }
      if cluster.app.None? {
        reply := cluster.WriteApp(CreateApp, Some(App(spec, None, false, false, true)));
        return if reply.Ok? then Done else Error;
      }
      var existing := cluster.app.value;
      if existing.managed && existing.spec != spec {
        existing := existing.(spec := spec);
        reply := cluster.WriteApp(UpdateApp, Some(existing));
        return if reply.Ok? then Done else Error;
      }
      outcome := Done;
    }

    method ReconcileDelete() returns (outcome: Outcome)
      requires cluster.iop.Some?
      modifies cluster
      ensures (outcome, cluster.Now()) == Istio.IopDelete(cluster.oracle, old(cluster.Now()))
    {
      var reply := cluster.Ask(GetApp);
      if !reply.Ok? { return Error; }
      if cluster.app.Some? && cluster.app.value.managed {
        reply := cluster.WriteApp(DeleteApp, Istio.Deleted(cluster.app.value));
        if !reply.Ok? { return Error; }
      }
      reply := cluster.WriteIop(None);
      outcome := if reply.Ok? then Done else Error;
    }

    /** One pass. */
    method Reconcile() returns (outcome: Outcome)
      modifies cluster
      ensures (outcome, cluster.Now()) == Istio.IopReconcile(cluster.oracle, old(cluster.Now()))
    {
      var reply := cluster.Ask(GetIop);
      if !reply.Ok? { return Error; }
      if cluster.iop.None? { return Done; }
      var iop := cluster.iop.value;
      if iop.deleting {
        outcome := ReconcileDelete();
        return;
      }
      if !iop.finalizer {
        iop := iop.(finalizer := true);
        reply := cluster.WriteIop(Some(iop));
        if !reply.Ok? { return Error; }
      }
      if iop.spec.None? { return Error; }
      reply := cluster.Ask(ReadProfile);
      if !reply.Ok? { return Error; }
      var spec := ConvertIopToHelmApp(iop.name, iop.tag, iop.spec.value);
      if spec.None? { return Error; }
      outcome := CreateOrUpdateHelmApp(spec.value);
    }
  }
}
