/** What the translation of an IstioOperator guarantees about names, shape and failure. */
module IstioLaws {
  import opened Values
  import opened Types
  import opened Istio

  // ---- Names ----

  lemma BuildNameParts(operator: string, p: string, q: string)
    ensures BuildName(operator, p) == BuildName(operator, q) <==> p == q
    ensures BuildName(operator, p) != ""
  {
    var prefix := "iop-" + operator + "-";
    assert BuildName(operator, p)[|prefix|..] == p && BuildName(operator, q)[|prefix|..] == q;
  }

  /** One operator's name continues the other's after a hyphen, and its part makes up the difference. */
  ghost predicate Overlaps(x: string, p: string, y: string, q: string) {
    exists r :: y == x + "-" + r && p == r + "-" + q
  }

  lemma LongerOverlaps(x: string, p: string, y: string, q: string)
    requires BuildName(x, p) == BuildName(y, q) && |x| < |y|
    ensures Overlaps(x, p, y, q)
  {
    var a, b := x + "-" + p, y + "-" + q;
    assert BuildName(x, p) == "iop-" + a && BuildName(y, q) == "iop-" + b;
    assert a == BuildName(x, p)[4..] == BuildName(y, q)[4..] == b;
    var r := y[|x| + 1..];
    assert y[..|x|] == b[..|x|] == a[..|x|] == x;
    assert y[|x|] == b[|x|] == a[|x|] == '-';
    assert y == x + "-" + r;
    assert p == a[|x| + 1..] == b[|x| + 1..] == r + "-" + q;
  }

  lemma OverlapCollides(x: string, p: string, y: string, q: string)
    requires Overlaps(x, p, y, q)
    ensures BuildName(x, p) == BuildName(y, q)
  {
    var r :| y == x + "-" + r && p == r + "-" + q;
    assert x + "-" + p == y + "-" + q;
    assert BuildName(x, p) == "iop-" + (x + "-" + p) && BuildName(y, q) == "iop-" + (y + "-" + q);
  }

  /** Exactly when two operators give two parts the same release name. */
  lemma NamesCollideIff(x: string, p: string, y: string, q: string)
    ensures BuildName(x, p) == BuildName(y, q) <==>
      (x == y && p == q) || Overlaps(x, p, y, q) || Overlaps(y, q, x, p)
  {
    if BuildName(x, p) == BuildName(y, q) {
      if |x| < |y| {
        LongerOverlaps(x, p, y, q);
      } else if |y| < |x| {
        LongerOverlaps(y, q, x, p);
      } else {
        var n := 4 + |x|;
        assert x == BuildName(x, p)[4..n] == BuildName(y, q)[4..n] == y;
        assert p == BuildName(x, p)[n + 1..] == BuildName(y, q)[n + 1..] == q;
      }
    }
    if Overlaps(x, p, y, q) { OverlapCollides(x, p, y, q); }
    if Overlaps(y, q, x, p) { OverlapCollides(y, q, x, p); }
  }

  /** Operators without hyphens in their names never share a release name. */
  lemma HyphenFreeNeverCollide(x: string, p: string, y: string, q: string)
    requires '-' !in x && '-' !in y && x != y
    ensures BuildName(x, p) != BuildName(y, q)
  {
    NamesCollideIff(x, p, y, q);
    forall r ensures y != x + "-" + r && x != y + "-" + r {
      assert (x + "-" + r)[|x|] == '-' && (y + "-" + r)[|y|] == '-';
    }
  }

  /** Operators "a" and "a-b" share the release of gateways "b-c" and "c". */
  lemma HyphensCollide()
    ensures BuildName("a", "b-c") == BuildName("a-b", "c")
  {
    assert "a-b" == "a" + "-" + "b" && "b-c" == "b" + "-" + "c";
    assert Overlaps("a", "b-c", "a-b", "c");
    NamesCollideIff("a", "b-c", "a-b", "c");
  }

  // ---- Shape ----

  /** The gateways that are enabled and named, in order. */
  function Active(gws: seq<Gateway>): seq<Gateway> {
    if gws == [] then [] else
    (if gws[0].enabled && gws[0].name != "" then [gws[0]] else []) + Active(gws[1..])
  }

  /** Their names. */
  function ActiveNames(gws: seq<Gateway>): seq<string> {
    if gws == [] then [] else
    (if gws[0].enabled && gws[0].name != "" then [gws[0].name] else []) + ActiveNames(gws[1..])
  }

  /** A component's release name and chart. */
  function Label(c: Component): (string, string) {
    (c.name, c.chart)
  }

  function Labels(cs: seq<Component>): seq<(string, string)> {
    seq(|cs|, i requires 0 <= i < |cs| => Label(cs[i]))
  }

  function GatewayLabels(operator: string, parts: seq<string>): seq<(string, string)> {
    seq(|parts|, i requires 0 <= i < |parts| => (BuildName(operator, parts[i]), "gateway"))
  }

  function Blanks(cs: Components): seq<(string, string)> {
    (if cs.cni then [("", "")] else []) + (if cs.ztunnel then [("", "")] else [])
  }

  function GatewayParts(cs: Components): seq<string> {
    ActiveNames(cs.ingressGateways) + ActiveNames(cs.egressGateways)
  }

  lemma LabelsConcat(a: seq<Component>, b: seq<Component>)
    ensures Labels(a + b) == Labels(a) + Labels(b)
  {
  }

  lemma GatewayLabelsConcat(operator: string, a: seq<string>, b: seq<string>)
    ensures GatewayLabels(operator, a + b) == GatewayLabels(operator, a) + GatewayLabels(operator, b)
  {
  }

  lemma {:induction false} GatewayShape(operator: string, version: string, gws: seq<Gateway>, values: Fields)
    ensures Labels(GatewayComponents(operator, version, gws, values)) == GatewayLabels(operator, ActiveNames(gws))
    decreases gws
  {
    if gws != [] {
      GatewayShape(operator, version, gws[1..], values);
      LabelsConcat(GatewayComponent(operator, version, gws[0], values),
                   GatewayComponents(operator, version, gws[1..], values));
      var head := if gws[0].enabled && gws[0].name != "" then [gws[0].name] else [];
      assert Labels(GatewayComponent(operator, version, gws[0], values)) == GatewayLabels(operator, head);
      GatewayLabelsConcat(operator, head, ActiveNames(gws[1..]));
    }
  }

  /** Every component but a blank asks for this version, and takes the global values. */
  predicate AllAskFor(version: string, cs: seq<Component>) {
    forall c | c in cs :: !c.ignoreGlobalValues && (c == PLACEHOLDER || c.version == version)
  }

  lemma AskConcat(version: string, a: seq<Component>, b: seq<Component>)
    requires AllAskFor(version, a) && AllAskFor(version, b)
    ensures AllAskFor(version, a + b)
  {
  }

  lemma {:induction false} GatewayVersions(operator: string, version: string, gws: seq<Gateway>, values: Fields)
    ensures AllAskFor(version, GatewayComponents(operator, version, gws, values))
    decreases gws
  {
    if gws != [] {
      GatewayVersions(operator, version, gws[1..], values);
      AskConcat(version, GatewayComponent(operator, version, gws[0], values),
                GatewayComponents(operator, version, gws[1..], values));
    }
  }

  lemma LabelsOfSix(a: seq<Component>, b: seq<Component>, c: seq<Component>,
                    d: seq<Component>, e: seq<Component>, f: seq<Component>)
    ensures Labels(a + b + c + d + e + f) == Labels(a) + Labels(b) + Labels(c) + Labels(d) + Labels(e) + Labels(f)
  {
    LabelsConcat(a, b);
    LabelsConcat(a + b, c);
    LabelsConcat(a + b + c, d);
    LabelsConcat(a + b + c + d, e);
    LabelsConcat(a + b + c + d + e, f);
  }

  /** What the labels of a translated list should be. */
  function ExpectedLabels(operator: string, cs: Components): seq<(string, string)> {
    (if cs.base then [(BuildName(operator, "base"), "base")] else [])
    + (if cs.pilot then [(BuildName(operator, "istiod"), "istiod")] else [])
    + GatewayLabels(operator, GatewayParts(cs))
    + Blanks(cs)
  }

  /** The translated list is base, istiod, the enabled named ingress then egress gateways in input
      order, then a blank for cni and one for ztunnel. */
  lemma TranslationShape(operator: string, tag: string, spec: IopSpec)
    requires spec.components.Some? && Convert(operator, tag, spec).Some?
    ensures Labels(Convert(operator, tag, spec).value.components) == ExpectedLabels(operator, spec.components.value)
  {
    var cs, version := spec.components.value, ChartVersion(tag);
    var a := When(cs.base, BaseComponent(operator, version));
    var b := if cs.pilot then [PilotComponent(operator, version, PilotValues(spec, cs.pilotK8s).value)] else [];
    var c := GatewayComponents(operator, version, cs.ingressGateways, spec.values);
    var d := GatewayComponents(operator, version, cs.egressGateways, spec.values);
    var e, f := When(cs.cni, PLACEHOLDER), When(cs.ztunnel, PLACEHOLDER);
    LabelsOfSix(a, b, c, d, e, f);
    GatewayShape(operator, version, cs.ingressGateways, spec.values);
    GatewayShape(operator, version, cs.egressGateways, spec.values);
    GatewayLabelsConcat(operator, ActiveNames(cs.ingressGateways), ActiveNames(cs.egressGateways));
    ShapeOfPieces(operator, cs, Labels(a), Labels(b), Labels(c), Labels(d), Labels(e), Labels(f));
  }

  lemma ShapeOfPieces(operator: string, cs: Components, a: seq<(string, string)>, b: seq<(string, string)>,
                      c: seq<(string, string)>, d: seq<(string, string)>, e: seq<(string, string)>,
                      f: seq<(string, string)>)
    requires a == if cs.base then [(BuildName(operator, "base"), "base")] else []
    requires b == if cs.pilot then [(BuildName(operator, "istiod"), "istiod")] else []
    requires c + d == GatewayLabels(operator, GatewayParts(cs))
    requires e == if cs.cni then [("", "")] else []
    requires f == if cs.ztunnel then [("", "")] else []
    ensures a + b + c + d + e + f == ExpectedLabels(operator, cs)
  {
    Regroup(a, b, c, d, e, f);
  }

  lemma Regroup<T>(a: seq<T>, b: seq<T>, c: seq<T>, d: seq<T>, e: seq<T>, f: seq<T>)
    ensures a + b + c + d + e + f == a + b + (c + d) + (e + f)
  {
  }

  /** Every component but a blank asks for the version the tag gives, with the global values merged in. */
  lemma TranslationVersions(operator: string, tag: string, spec: IopSpec)
    requires Convert(operator, tag, spec).Some?
    ensures AllAskFor(if tag != "" then tag else "1.21.1", Convert(operator, tag, spec).value.components)
  {
    if spec.components.Some? {
      var cs, version := spec.components.value, ChartVersion(tag);
      var a := When(cs.base, BaseComponent(operator, version));
      var b := if cs.pilot then [PilotComponent(operator, version, PilotValues(spec, cs.pilotK8s).value)] else [];
      var c := GatewayComponents(operator, version, cs.ingressGateways, spec.values);
      var d := GatewayComponents(operator, version, cs.egressGateways, spec.values);
      var e, f := When(cs.cni, PLACEHOLDER), When(cs.ztunnel, PLACEHOLDER);
      GatewayVersions(operator, version, cs.ingressGateways, spec.values);
      GatewayVersions(operator, version, cs.egressGateways, spec.values);
      AskConcat(version, a, b);
      AskConcat(version, a + b, c);
      AskConcat(version, a + b + c, d);
      AskConcat(version, a + b + c + d, e);
      AskConcat(version, a + b + c + d + e, f);
    }
  }

  /** Istiod is enabled with resources and there is no pilot section in the values for them to go into. */
  predicate Untranslatable(spec: IopSpec) {
    && spec.components.Some? && spec.components.value.pilot
    && spec.components.value.pilotK8s.Some? && spec.components.value.pilotK8s.value.resources.Some?
    && "pilot" !in spec.values
  }

  /** The translation fails exactly then. */
  lemma TranslationFailsIff(operator: string, tag: string, spec: IopSpec)
    ensures Convert(operator, tag, spec).None? <==> Untranslatable(spec)
  {
  }

  // ---- Distinct names ----

  /** The parts of the release names, before they are built. */
  function Parts(cs: Components): seq<string> {
    (if cs.base then ["base"] else []) + (if cs.pilot then ["istiod"] else []) + GatewayParts(cs)
  }

  ghost predicate NoDuplicates(names: seq<string>) {
    forall i, j | 0 <= i < j < |names| :: names[i] != names[j]
  }

  /** The release names are pairwise distinct exactly when the active gateways are, none of them is
      called like an enabled base or istiod, and cni and ztunnel are not both on. */
  lemma DistinctIff(operator: string, tag: string, spec: IopSpec)
    requires spec.components.Some? && Convert(operator, tag, spec).Some?
    ensures var cs := spec.components.value;
      Distinct(Convert(operator, tag, spec).value.components) <==>
        && NoDuplicates(GatewayParts(cs))
        && (cs.base ==> "base" !in GatewayParts(cs)) && (cs.pilot ==> "istiod" !in GatewayParts(cs))
        && !(cs.cni && cs.ztunnel)
  {
    var cs, out := spec.components.value, Convert(operator, tag, spec).value.components;
    var parts := Parts(cs);
    NamesFromParts(operator, tag, spec);
    forall i, j | 0 <= i < |parts| && 0 <= j < |parts|
      ensures out[i].name == out[j].name <==> parts[i] == parts[j]
    {
      BuildNameParts(operator, parts[i], parts[j]);
    }
    forall i | 0 <= i < |parts| ensures out[i].name != "" { BuildNameParts(operator, parts[i], parts[i]); }
    var blanks := |out| - |parts|;
    if blanks >= 2 {
      assert out[|parts|].name == out[|parts| + 1].name;
    }
    if Distinct(out) {
      assert NoDuplicates(parts);
    }
    if NoDuplicates(parts) && blanks <= 1 {
      assert Distinct(out);
    }
    NoDuplicateParts(cs);
  }

  lemma NamesFromParts(operator: string, tag: string, spec: IopSpec)
    requires spec.components.Some? && Convert(operator, tag, spec).Some?
    ensures var cs, out := spec.components.value, Convert(operator, tag, spec).value.components;
      var parts := Parts(cs);
      && |out| == |parts| + (if cs.cni then 1 else 0) + (if cs.ztunnel then 1 else 0)
      && (forall i | 0 <= i < |parts| :: out[i].name == BuildName(operator, parts[i]))
      && (forall i | |parts| <= i < |out| :: out[i].name == "")
  {
    TranslationShape(operator, tag, spec);
    var cs, out := spec.components.value, Convert(operator, tag, spec).value.components;
    LabelsFromParts(operator, cs);
    assert |Labels(out)| == |out|;
    assert forall i | 0 <= i < |out| :: out[i].name == Labels(out)[i].0;
  }

  lemma LabelsFromParts(operator: string, cs: Components)
    ensures var labels, parts := ExpectedLabels(operator, cs), Parts(cs);
      && |labels| == |parts| + (if cs.cni then 1 else 0) + (if cs.ztunnel then 1 else 0)
      && (forall i | 0 <= i < |parts| :: labels[i].0 == BuildName(operator, parts[i]))
      && (forall i | |parts| <= i < |labels| :: labels[i].0 == "")
  {
  }

  lemma NoDuplicateParts(cs: Components)
    ensures NoDuplicates(Parts(cs)) <==>
      && NoDuplicates(GatewayParts(cs))
      && (cs.base ==> "base" !in GatewayParts(cs)) && (cs.pilot ==> "istiod" !in GatewayParts(cs))
  {
    var heads := (if cs.base then ["base"] else []) + (if cs.pilot then ["istiod"] else []);
    var g, parts := GatewayParts(cs), Parts(cs);
    assert parts == heads + g;
    assert "base" != "istiod" by { assert |"base"| != |"istiod"|; }
    if NoDuplicates(parts) {
      forall i, j | 0 <= i < j < |g| ensures g[i] != g[j] {
        assert parts[|heads| + i] == g[i] && parts[|heads| + j] == g[j];
      }
      forall h, j | 0 <= h < |heads| && 0 <= j < |g| ensures heads[h] != g[j] {
        assert parts[h] == heads[h] && parts[|heads| + j] == g[j];
      }
      assert cs.base ==> heads[0] == "base";
      assert cs.pilot ==> heads[|heads| - 1] == "istiod";
    }
  }
}
