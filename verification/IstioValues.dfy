/** What the translation of an IstioOperator puts where: the values of every component, by path. */
module IstioValues {
  import opened Prelude
  import opened Values
  import opened Types
  import opened Istio
  import opened IstioLaws

  // ---- istiod ----

  /** What a component's values hold below a section, by path. */
  function SectionAt(values: Fields, section: string, key: string): Option<Value> {
    At(Object(values), [section, key])
  }

  lemma SectionAtKey(values: Fields, section: string, key: string)
    ensures SectionAt(values, section, key) ==
      if section in values && values[section].Object? then Find(values[section].fields, key) else None
  {
    assert [section, key][1..] == [key] && [key][1..] == [];
    if section in values {
      assert At(Object(values), [section, key]) == At(values[section], [key]);
      if values[section].Object? && key in values[section].fields {
        assert At(values[section], [key]) == At(values[section].fields[key], []);
      }
    }
  }

  /** Each section of istiod's values, before looking inside. */
  lemma IstiodSections(spec: IopSpec, k8s: Option<K8sSpec>)
    requires PilotValues(spec, k8s).Some?
    ensures var out := PilotValues(spec, k8s).value;
      && SectionIs(out, "meshConfig", MeshConfig(spec))
      && SectionIs(out, "pilot", PilotSection(spec, k8s).value)
      && SectionIs(out, "sidecarInjectorWebhook", Section(spec.values, "sidecarInjectorWebhook"))
      && SectionIs(out, "affinity", Affinity(k8s))
      && out.Keys <= {"meshConfig", "pilot", "sidecarInjectorWebhook", "affinity"}
  {
    DistinctSections();
  }

  predicate SectionIs(out: Fields, section: string, content: Option<Fields>) {
    Find(out, section) == if content.Some? then Some(Object(content.value)) else None
  }

  /** The setting of an object that may be absent. */
  function Setting(fields: Option<Fields>, key: string): Option<Value> {
    if fields.Some? && key in fields.value then Some(fields.value[key]) else None
  }

  /** What istiod is given below a section: of the mesh configuration, the one under values wins key by key over
      the typed one; the resources of the component replace those of the pilot section, whose other keys stay. */
  predicate IstiodAt(spec: IopSpec, k8s: Option<K8sSpec>, out: Fields, key: string) {
    var free := SectionAt(spec.values, "meshConfig", key);
    && SectionAt(out, "meshConfig", key) == (if free.Some? then free else Setting(spec.meshConfig, key))
    && SectionAt(out, "pilot", key) == (
         if key == "resources" && k8s.Some? && k8s.value.resources.Some?
         then Some(Object(k8s.value.resources.value))
         else SectionAt(spec.values, "pilot", key))
    && SectionAt(out, "sidecarInjectorWebhook", key) == SectionAt(spec.values, "sidecarInjectorWebhook", key)
    && SectionAt(out, "affinity", key) == (if k8s.Some? then Setting(k8s.value.affinity, key) else None)
  }

  /** The values of istiod: a section for each one given, and what those hold at each key. */
  ghost predicate IstiodHolds(spec: IopSpec, k8s: Option<K8sSpec>, out: Fields) {
    && out.Keys <= {"meshConfig", "pilot", "sidecarInjectorWebhook", "affinity"}
    && (forall section | section in out :: out[section].Object?)
    && ("meshConfig" in out <==> spec.meshConfig.Some? || "meshConfig" in spec.values)
    && ("pilot" in out <==> "pilot" in spec.values)
    && ("sidecarInjectorWebhook" in out <==> "sidecarInjectorWebhook" in spec.values)
    && ("affinity" in out <==> k8s.Some? && k8s.value.affinity.Some?)
    && (forall key :: IstiodAt(spec, k8s, out, key))
  }

  lemma IstiodValuesAt(spec: IopSpec, k8s: Option<K8sSpec>, key: string)
    requires PilotValues(spec, k8s).Some?
    ensures IstiodAt(spec, k8s, PilotValues(spec, k8s).value, key)
  {
    var out := PilotValues(spec, k8s).value;
    IstiodSections(spec, k8s);
    SectionAtKey(out, "meshConfig", key);
    SectionAtKey(out, "pilot", key);
    SectionAtKey(out, "sidecarInjectorWebhook", key);
    SectionAtKey(out, "affinity", key);
    SectionAtKey(spec.values, "meshConfig", key);
    SectionAtKey(spec.values, "pilot", key);
    SectionAtKey(spec.values, "sidecarInjectorWebhook", key);
  }

  lemma IstiodValues(spec: IopSpec, k8s: Option<K8sSpec>)
    requires PilotValues(spec, k8s).Some?
    ensures IstiodHolds(spec, k8s, PilotValues(spec, k8s).value)
  {
    var out := PilotValues(spec, k8s).value;
    IstiodSections(spec, k8s);
    forall key ensures IstiodAt(spec, k8s, out, key) { IstiodValuesAt(spec, k8s, key); }
    forall section | section in out ensures out[section].Object? {
      assert section in {"meshConfig", "pilot", "sidecarInjectorWebhook", "affinity"};
    }
    assert Find(out, "meshConfig").Some? <==> "meshConfig" in out;
    assert Find(out, "pilot").Some? <==> "pilot" in out;
    assert Find(out, "sidecarInjectorWebhook").Some? <==> "sidecarInjectorWebhook" in out;
    assert Find(out, "affinity").Some? <==> "affinity" in out;
  }

  /** Values whose sections are maps are determined by their sections and what those hold at each key. */
  lemma SectionsDetermine(a: Fields, b: Fields)
    requires a.Keys == b.Keys
    requires forall section | section in a :: a[section].Object? && b[section].Object?
    requires forall section, key | section in a :: SectionAt(a, section, key) == SectionAt(b, section, key)
    ensures a == b
  {
    forall section | section in a ensures a[section] == b[section] {
      forall key ensures Find(a[section].fields, key) == Find(b[section].fields, key) {
        SectionAtKey(a, section, key);
        SectionAtKey(b, section, key);
      }
      assert a[section].fields == b[section].fields by {
        forall key | key in a[section].fields || key in b[section].fields
          ensures key in a[section].fields && key in b[section].fields
            && a[section].fields[key] == b[section].fields[key]
        {
          assert Find(a[section].fields, key) == Find(b[section].fields, key);
        }
      }
    }
  }

  /** Nothing else is istiod given. */
  lemma IstiodDetermined(spec: IopSpec, k8s: Option<K8sSpec>, a: Fields, b: Fields)
    requires IstiodHolds(spec, k8s, a) && IstiodHolds(spec, k8s, b)
    ensures a == b
  {
    forall section, key | section in a ensures SectionAt(a, section, key) == SectionAt(b, section, key) {
      assert section in {"meshConfig", "pilot", "sidecarInjectorWebhook", "affinity"};
      assert IstiodAt(spec, k8s, a, key) && IstiodAt(spec, k8s, b, key);
    }
    SectionsDetermine(a, b);
  }

  // ---- Gateways ----

  /** The autoscaling settings of the ingress gateway values. */
  function IngressSetting(values: Fields, key: string): Option<Value> {
    At(Object(values), ["gateways", "istio-ingressgateway", key])
  }

  lemma IngressSettingStep(values: Fields, key: string)
    ensures IngressSetting(values, key) ==
      if "gateways" in values then SectionAt(StructOf(values["gateways"]), "istio-ingressgateway", key) else None
  {
    var path, rest := ["gateways", "istio-ingressgateway", key], ["istio-ingressgateway", key];
    assert path[1..] == rest;
    if "gateways" in values {
      var v := values["gateways"];
      assert At(Object(values), path) == At(v, rest);
      assert v.Object? ==> Object(StructOf(v)) == v;
      SectionAtKey(StructOf(v), "istio-ingressgateway", key);
    }
  }

  /** What a gateway, ingress or egress, is given below a section: its own affinity and resources, and the
      autoscaling settings of the ingress gateway, the minimum only together with the switch. */
  predicate GatewayAt(gw: Gateway, values: Fields, out: Fields, key: string) {
    var enabled, least := IngressSetting(values, "autoscaleEnabled"), IngressSetting(values, "autoscaleMin");
    && SectionAt(out, "affinity", key) == (if gw.k8s.Some? then Setting(gw.k8s.value.affinity, key) else None)
    && SectionAt(out, "resources", key) == (if gw.k8s.Some? then Setting(gw.k8s.value.resources, key) else None)
    && SectionAt(out, "autoscaling", key) == (
         if key == "enabled" && enabled.Some? then Some(Bool(enabled.value.Bool? && enabled.value.b))
         else if key == "minReplicas" && enabled.Some? && least.Some?
         then Some(Number(if least.value.Number? then least.value.n else 0.0))
         else None)
  }

  /** The values of a gateway: a section for each one given, and what those hold at each key. */
  ghost predicate GatewayHolds(gw: Gateway, values: Fields, out: Fields) {
    && out.Keys <= {"affinity", "resources", "autoscaling"}
    && (forall section | section in out :: out[section].Object?)
    && ("affinity" in out <==> gw.k8s.Some? && gw.k8s.value.affinity.Some?)
    && ("resources" in out <==> gw.k8s.Some? && gw.k8s.value.resources.Some?)
    && ("autoscaling" in out <==> IngressSetting(values, "autoscaleEnabled").Some?)
    && (forall key :: GatewayAt(gw, values, out, key))
  }

  lemma GatewayValuesAt(gw: Gateway, values: Fields, key: string)
    ensures GatewayAt(gw, values, GatewayValues(gw, values), key)
  {
    var out := GatewayValues(gw, values);
    GatewaySections(gw, values);
    AutoscalingAt(values);
    SectionAtKey(out, "affinity", key);
    SectionAtKey(out, "resources", key);
    SectionAtKey(out, "autoscaling", key);
  }

  lemma GatewayTranslated(gw: Gateway, values: Fields)
    ensures GatewayHolds(gw, values, GatewayValues(gw, values))
  {
    var out := GatewayValues(gw, values);
    GatewaySections(gw, values);
    AutoscalingAt(values);
    forall key ensures GatewayAt(gw, values, out, key) { GatewayValuesAt(gw, values, key); }
    forall section | section in out ensures out[section].Object? {
      assert section in {"affinity", "resources", "autoscaling"};
    }
    assert Find(out, "affinity").Some? <==> "affinity" in out;
    assert Find(out, "resources").Some? <==> "resources" in out;
    assert Find(out, "autoscaling").Some? <==> "autoscaling" in out;
  }

  /** Nothing else is a gateway given. */
  lemma GatewayDetermined(gw: Gateway, values: Fields, a: Fields, b: Fields)
    requires GatewayHolds(gw, values, a) && GatewayHolds(gw, values, b)
    ensures a == b
  {
    forall section, key | section in a ensures SectionAt(a, section, key) == SectionAt(b, section, key) {
      assert section in {"affinity", "resources", "autoscaling"};
      assert GatewayAt(gw, values, a, key) && GatewayAt(gw, values, b, key);
    }
    SectionsDetermine(a, b);
  }

  lemma GatewaySections(gw: Gateway, values: Fields)
    ensures var out := GatewayValues(gw, values);
      && SectionIs(out, "affinity", Affinity(gw.k8s))
      && SectionIs(out, "resources", Resources(gw.k8s))
      && SectionIs(out, "autoscaling", Autoscaling(values))
  {
    assert |"affinity"| == 8 && |"resources"| == 9 && |"autoscaling"| == 11;
  }

  lemma AutoscalingAt(values: Fields)
    ensures var section := Autoscaling(values);
      var enabled, least := IngressSetting(values, "autoscaleEnabled"), IngressSetting(values, "autoscaleMin");
      && (section.Some? <==> enabled.Some?)
      && AsMap(section).Keys <= {"enabled", "minReplicas"}
      && Find(AsMap(section), "enabled") ==
           (if enabled.Some? then Some(Bool(enabled.value.Bool? && enabled.value.b)) else None)
      && Find(AsMap(section), "minReplicas") ==
           (if enabled.Some? && least.Some?
            then Some(Number(if least.value.Number? then least.value.n else 0.0)) else None)
  {
    IngressSettingStep(values, "autoscaleEnabled");
    IngressSettingStep(values, "autoscaleMin");
    if "gateways" in values {
      SectionAtKey(StructOf(values["gateways"]), "istio-ingressgateway", "autoscaleEnabled");
      SectionAtKey(StructOf(values["gateways"]), "istio-ingressgateway", "autoscaleMin");
    }
    assert |"enabled"| != |"minReplicas"|;
  }

  lemma DistinctSections()
    ensures "meshConfig" != "pilot" && "meshConfig" != "sidecarInjectorWebhook" && "meshConfig" != "affinity"
    ensures "pilot" != "sidecarInjectorWebhook" && "pilot" != "affinity" && "sidecarInjectorWebhook" != "affinity"
  {
    assert |"meshConfig"| == 10 && |"pilot"| == 5 && |"sidecarInjectorWebhook"| == 22 && |"affinity"| == 8;
  }

  /** When both mesh configurations are given, the overlay is the deep merge exactly when no map of
      the typed one loses a key to the map that replaces it. */
  lemma MeshOverlayIsMergeIff(spec: IopSpec)
    requires spec.meshConfig.Some? && "meshConfig" in spec.values
    ensures var typed, free := spec.meshConfig.value, StructOf(spec.values["meshConfig"]);
      MeshConfig(spec) == Some(Merge(typed, free)) <==>
        forall k | k in typed && k in free && typed[k].Object? && free[k].Object? ::
          Covers(free[k].fields, typed[k].fields)
  {
    OverlayIsMergeIff(spec.meshConfig.value, StructOf(spec.values["meshConfig"]));
  }

  // ---- The whole list ----

  /** The component of an active gateway. */
  ghost predicate IsGateway(c: Component, operator: string, version: string, gw: Gateway, values: Fields) {
    && c == Component("iop-" + operator + "-" + gw.name, "gateway", version, c.values, false)
    && c.values.Some? && GatewayHolds(gw, values, c.values.value)
  }

  /** The component of istiod. */
  ghost predicate IsIstiod(c: Component, operator: string, version: string, spec: IopSpec, k8s: Option<K8sSpec>) {
    && c == Component("iop-" + operator + "-istiod", "istiod", version, c.values, false)
    && c.values.Some? && IstiodHolds(spec, k8s, c.values.value)
  }

  ghost predicate AreGateways(list: seq<Component>, operator: string, version: string, gws: seq<Gateway>,
                              values: Fields) {
    |list| == |gws| && forall r | 0 <= r < |gws| :: IsGateway(list[r], operator, version, gws[r], values)
  }

  /** The list of an operator: base without values of its own, istiod, the active ingress then egress gateways in
      order, each with its values, and a blank for each of cni and ztunnel. */
  ghost predicate IsTranslation(operator: string, version: string, spec: IopSpec, cs: Components,
                                out: seq<Component>) {
    var b, p := if cs.base then 1 else 0, if cs.pilot then 1 else 0;
    var gws := Active(cs.ingressGateways + cs.egressGateways);
    && |out| == b + p + |gws| + (if cs.cni then 1 else 0) + (if cs.ztunnel then 1 else 0)
    && (cs.base ==> out[0] == Component("iop-" + operator + "-base", "base", version, None, false))
    && (cs.pilot ==> IsIstiod(out[b], operator, version, spec, cs.pilotK8s))
    && AreGateways(out[b + p..b + p + |gws|], operator, version, gws, spec.values)
    && (forall i | b + p + |gws| <= i < |out| :: out[i] == Component("", "", "", None, false))
  }

  lemma {:induction false} ActiveConcat(a: seq<Gateway>, b: seq<Gateway>)
    ensures Active(a + b) == Active(a) + Active(b)
    decreases a
  {
    if a == [] {
      assert a + b == b;
    } else {
      assert (a + b)[1..] == a[1..] + b;
      ActiveConcat(a[1..], b);
    }
  }

  lemma {:induction false} GatewaysTranslated(operator: string, version: string, gws: seq<Gateway>, values: Fields)
    ensures AreGateways(GatewayComponents(operator, version, gws, values), operator, version, Active(gws), values)
    decreases gws
  {
    if gws != [] {
      GatewayTranslated(gws[0], values);
      GatewaysTranslated(operator, version, gws[1..], values);
    }
  }

  lemma GatewaysConcat(a: seq<Component>, b: seq<Component>, operator: string, version: string,
                       g: seq<Gateway>, h: seq<Gateway>, values: Fields)
    requires AreGateways(a, operator, version, g, values) && AreGateways(b, operator, version, h, values)
    ensures AreGateways(a + b, operator, version, g + h, values)
  {
    forall r | 0 <= r < |g + h| ensures IsGateway((a + b)[r], operator, version, (g + h)[r], values) {
      if r >= |g| { assert IsGateway(b[r - |g|], operator, version, h[r - |g|], values); }
    }
  }

  lemma BuiltNames(operator: string)
    ensures BuildName(operator, "base") == "iop-" + operator + "-base"
    ensures BuildName(operator, "istiod") == "iop-" + operator + "-istiod"
  {
    assert "-" + "base" == "-base" && "-" + "istiod" == "-istiod";
    assert "iop-" + operator + ("-" + "base") == BuildName(operator, "base");
    assert "iop-" + operator + ("-" + "istiod") == BuildName(operator, "istiod");
  }

  lemma PiecesTranslated(operator: string, version: string, spec: IopSpec, cs: Components,
                         a: seq<Component>, b: seq<Component>, g: seq<Component>, e: seq<Component>)
    requires a == if cs.base then [Component("iop-" + operator + "-base", "base", version, None, false)] else []
    requires |b| == (if cs.pilot then 1 else 0) && (cs.pilot ==> IsIstiod(b[0], operator, version, spec, cs.pilotK8s))
    requires AreGateways(g, operator, version, Active(cs.ingressGateways + cs.egressGateways), spec.values)
    requires |e| == (if cs.cni then 1 else 0) + (if cs.ztunnel then 1 else 0)
    requires forall i | 0 <= i < |e| :: e[i] == Component("", "", "", None, false)
    ensures IsTranslation(operator, version, spec, cs, a + b + g + e)
  {
    assert (a + b + g + e)[|a + b|..|a + b| + |g|] == g;
  }

  lemma ListTranslated(operator: string, version: string, spec: IopSpec, cs: Components)
    requires ConvertComponents(operator, version, spec, cs).Some?
    ensures IsTranslation(operator, version, spec, cs, ConvertComponents(operator, version, spec, cs).value)
  {
    var a := When(cs.base, BaseComponent(operator, version));
    var b := if cs.pilot then [PilotComponent(operator, version, PilotValues(spec, cs.pilotK8s).value)] else [];
    var c := GatewayComponents(operator, version, cs.ingressGateways, spec.values);
    var d := GatewayComponents(operator, version, cs.egressGateways, spec.values);
    var e, f := When(cs.cni, PLACEHOLDER), When(cs.ztunnel, PLACEHOLDER);
    if cs.pilot { IstiodValues(spec, cs.pilotK8s); }
    BuiltNames(operator);
    GatewaysTranslated(operator, version, cs.ingressGateways, spec.values);
    GatewaysTranslated(operator, version, cs.egressGateways, spec.values);
    GatewaysConcat(c, d, operator, version, Active(cs.ingressGateways), Active(cs.egressGateways), spec.values);
    ActiveConcat(cs.ingressGateways, cs.egressGateways);
    PiecesTranslated(operator, version, spec, cs, a, b, c + d, e + f);
    Regroup(a, b, c, d, e, f);
  }

  /** The whole HelmApp of an operator, from its spec and tag alone. */
  lemma TranslationExact(operator: string, tag: string, spec: IopSpec)
    requires Convert(operator, tag, spec).Some?
    ensures var out := Convert(operator, tag, spec).value;
      && out.repo == Some(Repo("istio", "https://istio-release.storage.googleapis.com/charts"))
      && out.globalValues ==
           (if "global" in spec.values && spec.values["global"].Object?
            then Some(spec.values["global"].fields) else None)
      && (spec.components.None? ==> out.components == [])
      && (spec.components.Some? ==>
            IsTranslation(operator, if tag != "" then tag else "1.21.1", spec, spec.components.value, out.components))
  {
    if spec.components.Some? { ListTranslated(operator, ChartVersion(tag), spec, spec.components.value); }
  }
}
