/** From an IstioOperator to its releases: one pass of each controller. */
module EndToEnd {
  import opened Prelude
  import opened Values
  import opened Types
  import opened HelmApp
  import opened Effects
  import opened Protocol
  import opened Deletion
  import opened Convergence
  import opened History
  import opened Istio
  import opened IstioLaws
  import opened IstioValues

  /** The release names of everything the operator enables. */
  function WantedNames(operator: string, cs: Components): set<string> {
    set p | p in Parts(cs) :: "iop-" + operator + "-" + p
  }

  /** The operator is live, its translation works and gives every component a name of its own. */
  ghost predicate Translates(s: State) {
    && s.iop.Some? && !s.iop.value.deleting && s.iop.value.spec.Some? && s.iop.value.spec.value.components.Some?
    && Convert(s.iop.value.name, s.iop.value.tag, s.iop.value.spec.value).Some?
    && var cs := s.iop.value.spec.value.components.value;
       && NoDuplicates(GatewayParts(cs))
       && (cs.base ==> "base" !in GatewayParts(cs)) && (cs.pilot ==> "istiod" !in GatewayParts(cs))
       && !cs.cni && !cs.ztunnel
  }

  function Translated(iop: Iop): Spec
    requires iop.spec.Some? && Convert(iop.name, iop.tag, iop.spec.value).Some?
  {
    Convert(iop.name, iop.tag, iop.spec.value).value
  }

  /** A fully successful operator pass leaves a managed HelmApp with the translated spec, and touches
      neither its status nor any release. */
  lemma OperatorPassStores(o: Oracle, s: State)
    requires Translates(s) && (s.app.Some? ==> s.app.value.managed)
    requires AllOk(o, s.world, IopReconcile(o, s).1.world)
    ensures var s1 := IopReconcile(o, s).1;
      && s1.world.releases == s.world.releases
      && s1.app == Some(if s.app.None? then App(Translated(s.iop.value), None, false, false, true)
                        else s.app.value.(spec := Translated(s.iop.value)))
  {
    var n := |s.world.trace|;
    var s1 := IopReconcile(o, s).1;
    assert o.replies(n).Ok?;
    assert |s1.world.trace| > n + 1 ==> o.replies(n + 1).Ok?;
    assert |s1.world.trace| > n + 2 ==> o.replies(n + 2).Ok?;
    assert |s1.world.trace| > n + 3 ==> o.replies(n + 3).Ok?;
    assert |s1.world.trace| > n + 4 ==> o.replies(n + 4).Ok?;
  }

  lemma TranslatedNames(iop: Iop)
    requires iop.spec.Some? && iop.spec.value.components.Some?
    requires Convert(iop.name, iop.tag, iop.spec.value).Some?
    requires var cs := iop.spec.value.components.value; !cs.cni && !cs.ztunnel
    ensures Names(Translated(iop).components) == WantedNames(iop.name, iop.spec.value.components.value)
    ensures "" !in Names(Translated(iop).components)
  {
    var cs, out := iop.spec.value.components.value, Translated(iop).components;
    var parts := Parts(cs);
    NamesFromParts(iop.name, iop.tag, iop.spec.value);
    forall n | n in Names(out) ensures n in WantedNames(iop.name, cs) && n != "" {
      var c :| c in out && c.name == n;
      var i :| 0 <= i < |out| && out[i] == c;
      assert parts[i] in parts;
      BuildNameParts(iop.name, parts[i], parts[i]);
    }
    forall n | n in WantedNames(iop.name, cs) ensures n in Names(out) {
      var p :| p in parts && BuildName(iop.name, p) == n;
      var i :| 0 <= i < |parts| && parts[i] == p;
      assert out[i] in out;
    }
  }

  /** The names the HelmApp's status records; none when there is no HelmApp. */
  function RecordedIn(s: State): set<string> {
    if s.app.None? then {} else Recorded(s.app.value)
  }

  /** The global values of an operator. */
  function GlobalsOf(values: Fields): Fields {
    if "global" in values && values["global"].Object? then values["global"].fields else map[]
  }

  /** The release of one of its components: it has the tag's version, or the default one, exactly if it had that
      and its values before or the chart is found at that version; and it is made from that chart if it is new. */
  predicate VersionStored(o: Oracle, iop: Iop, spec: Spec, c: Component, before: Option<Release>,
                          after: Option<Release>) {
    && after.Some?
    && (after.value.chart.version == (if iop.tag != "" then iop.tag else "1.21.1") <==>
          Pinned(o, spec, c) || UpToDate(spec, c, before))
    && (UpToDate(spec, c, before) ==> after == before)
    && (!UpToDate(spec, c, before) ==> AskedChart(o, spec, c, after.value.chart) && after.value.status == "deployed")
  }

  /** A release holds some values of its own merged over the global ones. */
  predicate Merged(values: Fields, r: Option<Release>, own: Fields) {
    r.Some? && r.value.values == Merge(GlobalsOf(values), own)
  }

  ghost predicate IstiodStored(operator: string, spec: IopSpec, k8s: Option<K8sSpec>, releases: Releases) {
    exists own :: IstiodHolds(spec, k8s, own)
               && Merged(spec.values, Find(releases, "iop-" + operator + "-istiod"), own)
  }

  ghost predicate GatewayStored(operator: string, spec: IopSpec, gw: Gateway, releases: Releases) {
    exists own :: GatewayHolds(gw, spec.values, own)
               && Merged(spec.values, Find(releases, "iop-" + operator + "-" + gw.name), own)
  }

  /** The release of base has the global values alone, that of istiod and of every active gateway its own over
      them. */
  ghost predicate ValuesStored(operator: string, spec: IopSpec, cs: Components, releases: Releases) {
    && (cs.base ==> Merged(spec.values, Find(releases, "iop-" + operator + "-base"), map[]))
    && (cs.pilot ==> IstiodStored(operator, spec, cs.pilotK8s, releases))
    && (forall gw | gw in Active(cs.ingressGateways + cs.egressGateways) ::
          GatewayStored(operator, spec, gw, releases))
  }

  /** A successful operator pass followed by a successful HelmApp pass, with distinct names: every wanted
      component has its release, with the values and version the operator gives it; each other release the
      HelmApp recorded is gone and all the rest are unchanged. So apart from foreign releases exactly the wanted
      ones are left, provided each of those there before was wanted or recorded. */
  lemma OperatorToReleases(o: Oracle, s: State, foreign: set<string>)
    requires Translates(s) && (s.app.Some? ==> s.app.value.managed && !s.app.value.deleting)
    requires var s1 := IopReconcile(o, s).1; AllOk(o, s.world, s1.world) && Succeeds(o, s1)
    ensures var before, after := s.world.releases, Reconcile(o, IopReconcile(o, s).1).1.world.releases;
      var iop, spec, cs := s.iop.value, Translated(s.iop.value), s.iop.value.spec.value.components.value;
      var wanted := WantedNames(iop.name, cs);
      && Names(spec.components) == wanted
      && ValuesStored(iop.name, iop.spec.value, cs, after)
      && (forall c | c in spec.components ::
            VersionStored(o, iop, spec, c, Find(before, c.name), Find(after, c.name)))
      && (forall n | n !in wanted ::
            Find(after, n) == if n in RecordedIn(s) && n != "" then None else Find(before, n))
      && (after.Keys - foreign == wanted - foreign <==>
          forall n | n in before && n !in foreign :: n in wanted || (n in RecordedIn(s) && n != ""))
  {
    var s1, iop := IopReconcile(o, s).1, s.iop.value;
    OperatorPassStores(o, s);
    DistinctIff(iop.name, iop.tag, iop.spec.value);
    TranslatedNames(iop);
    SuccessfulPass(o, s1);
    forall c | c in Translated(iop).components
      ensures VersionStored(o, iop, Translated(iop), c, Find(s.world.releases, c.name),
                            Find(Reconcile(o, s1).1.world.releases, c.name))
    {
      TranslatedVersion(o, s1, iop, c);
    }
    TranslatedValues(o, s1, iop);
    KeysIff(s.world.releases, Reconcile(o, s1).1.world.releases, Names(Translated(iop).components),
            RecordedIn(s) - {""}, foreign);
  }

  lemma TranslatedVersion(o: Oracle, s: State, iop: Iop, c: Component)
    requires iop.spec.Some? && iop.spec.value.components.Some?
    requires Convert(iop.name, iop.tag, iop.spec.value).Some? && WellNamed(Translated(iop))
    requires Live(s) && s.app.value.spec == Translated(iop) && c in Translated(iop).components && Succeeds(o, s)
    ensures VersionStored(o, iop, Translated(iop), c, Find(s.world.releases, c.name),
                          Find(Reconcile(o, s).1.world.releases, c.name))
  {
    var cs := Translated(iop).components;
    var i :| 0 <= i < |cs| && cs[i] == c;
    assert c.name in Names(cs);
    TranslationVersions(iop.name, iop.tag, iop.spec.value);
    SuccessStores(o, s, i);
  }

  /** Component i of a translated spec, after a successful pass. */
  lemma TranslatedValue(o: Oracle, s: State, iop: Iop, i: nat)
    requires iop.spec.Some? && iop.spec.value.components.Some?
    requires Convert(iop.name, iop.tag, iop.spec.value).Some? && WellNamed(Translated(iop))
    requires Live(s) && s.app.value.spec == Translated(iop) && i < |Translated(iop).components| && Succeeds(o, s)
    ensures var c := Translated(iop).components[i];
      Merged(iop.spec.value.values, Find(Reconcile(o, s).1.world.releases, c.name), AsMap(c.values))
  {
    assert Translated(iop).components[i] in Translated(iop).components;
    TranslationVersions(iop.name, iop.tag, iop.spec.value);
    TranslationExact(iop.name, iop.tag, iop.spec.value);
    SuccessStores(o, s, i);
  }

  lemma MergedIstiod(operator: string, version: string, spec: IopSpec, k8s: Option<K8sSpec>, c: Component,
                     releases: Releases)
    requires IsIstiod(c, operator, version, spec, k8s)
    requires Merged(spec.values, Find(releases, c.name), AsMap(c.values))
    ensures IstiodStored(operator, spec, k8s, releases)
  {
  }

  lemma MergedGateway(operator: string, version: string, spec: IopSpec, gw: Gateway, c: Component, releases: Releases)
    requires IsGateway(c, operator, version, gw, spec.values)
    requires Merged(spec.values, Find(releases, c.name), AsMap(c.values))
    ensures GatewayStored(operator, spec, gw, releases)
  {
  }

  lemma MergedGateways(operator: string, version: string, spec: IopSpec, gws: seq<Gateway>, list: seq<Component>,
                       releases: Releases)
    requires AreGateways(list, operator, version, gws, spec.values)
    requires forall c | c in list :: Merged(spec.values, Find(releases, c.name), AsMap(c.values))
    ensures forall gw | gw in gws :: GatewayStored(operator, spec, gw, releases)
  {
    forall gw | gw in gws ensures GatewayStored(operator, spec, gw, releases) {
      var r :| 0 <= r < |gws| && gws[r] == gw;
      MergedGateway(operator, version, spec, gw, list[r], releases);
    }
  }

  /** If every component of the list has its values merged into its release, the releases are as they should be. */
  lemma MergedList(operator: string, version: string, spec: IopSpec, cs: Components, out: seq<Component>,
                   releases: Releases)
    requires IsTranslation(operator, version, spec, cs, out)
    requires forall c | c in out :: Merged(spec.values, Find(releases, c.name), AsMap(c.values))
    ensures ValuesStored(operator, spec, cs, releases)
  {
    var b, p := if cs.base then 1 else 0, if cs.pilot then 1 else 0;
    var gws := Active(cs.ingressGateways + cs.egressGateways);
    if cs.pilot { MergedIstiod(operator, version, spec, cs.pilotK8s, out[b], releases); }
    MergedGateways(operator, version, spec, gws, out[b + p..b + p + |gws|], releases);
  }

  lemma TranslatedValues(o: Oracle, s: State, iop: Iop)
    requires iop.spec.Some? && iop.spec.value.components.Some?
    requires Convert(iop.name, iop.tag, iop.spec.value).Some? && WellNamed(Translated(iop))
    requires Live(s) && s.app.value.spec == Translated(iop) && Succeeds(o, s)
    ensures ValuesStored(iop.name, iop.spec.value, iop.spec.value.components.value, Reconcile(o, s).1.world.releases)
  {
    var spec, out, releases := iop.spec.value, Translated(iop).components, Reconcile(o, s).1.world.releases;
    forall c | c in out ensures Merged(spec.values, Find(releases, c.name), AsMap(c.values)) {
      var i :| 0 <= i < |out| && out[i] == c;
      TranslatedValue(o, s, iop, i);
    }
    TranslationExact(iop.name, iop.tag, spec);
    MergedList(iop.name, if iop.tag != "" then iop.tag else "1.21.1", spec, spec.components.value, out, releases);
  }

  /** When a store keeps the wanted names and loses the dropped ones, what is left is what was wanted exactly
      if nothing else was there. */
  lemma KeysIff(before: Releases, after: Releases, wanted: set<string>, dropped: set<string>, foreign: set<string>)
    requires wanted <= after.Keys
    requires forall n | n !in wanted :: Find(after, n) == if n in dropped then None else Find(before, n)
    ensures after.Keys - foreign == wanted - foreign <==>
      forall n | n in before && n !in foreign :: n in wanted || n in dropped
  {
    forall n | n !in wanted ensures n in after <==> n in before && n !in dropped {
      assert Find(after, n) == if n in dropped then None else Find(before, n);
    }
    if after.Keys - foreign == wanted - foreign {
      forall n | n in before && n !in foreign ensures n in wanted || n in dropped {
        assert n in after ==> n in after.Keys - foreign;
      }
    }
  }

  // ---- Deleting the operator ----

  function RepeatIop(o: Oracle, s: State, n: nat): State
    decreases n
  {
    if n == 0 then s else RepeatIop(o, IopReconcile(o, s).1, n - 1)
  }

  /** The operator is going away; its HelmApp is still there, perhaps already marked for deletion. */
  predicate Leaving(s: State, app: App) {
    && s.iop.Some? && s.iop.value.deleting && app.managed && app.finalizer
    && (s.app == Some(app) || s.app == Deleted(app))
  }

  /** The operator is gone and its HelmApp is marked for deletion. */
  predicate Left(s: State, app: App) {
    s.iop.None? && s.app == Deleted(app)
  }

  lemma LeavingPass(o: Oracle, s: State, app: App)
    requires Leaving(s, app)
    ensures var s' := IopReconcile(o, s).1;
      && s'.world.releases == s.world.releases
      && (Left(s', app) || (Leaving(s', app) && Cost(o, s.world, s'.world, 1)))
      && |s.world.trace| <= |s'.world.trace|
  {
    var s' := IopReconcile(o, s).1;
    var n, m := |s.world.trace|, |s'.world.trace|;
    assert n < m;
    if s'.iop.Some? { FailureCounts(o, n, m, m - 1); }
  }

  lemma {:induction false} LeftStays(o: Oracle, s: State, app: App, n: nat)
    requires Left(s, app)
    ensures var s' := RepeatIop(o, s, n);
      Left(s', app) && s'.world.releases == s.world.releases && |s.world.trace| <= |s'.world.trace|
    decreases n
  {
    if n > 0 { LeftStays(o, IopReconcile(o, s).1, app, n - 1); }
  }

  /** n passes of the operator's reconciler let it go, or meet n failed calls. */
  lemma {:induction false} LeavingCosts(o: Oracle, s: State, app: App, n: nat)
    requires Leaving(s, app)
    ensures var s' := RepeatIop(o, s, n);
      && s'.world.releases == s.world.releases && |s.world.trace| <= |s'.world.trace|
      && (Left(s', app) || Cost(o, s.world, s'.world, n))
    decreases n
  {
    if n > 0 {
      var s1 := IopReconcile(o, s).1;
      LeavingPass(o, s, app);
      if Left(s1, app) {
        LeftStays(o, s1, app, n - 1);
      } else {
        LeavingCosts(o, s1, app, n - 1);
        var s' := RepeatIop(o, s1, n - 1);
        if !Left(s', app) { CostAdds(o, s.world, s1.world, s'.world, 1, n - 1); }
      }
    }
  }

  /** Deleting the operator, with at most F failed calls of either reconciler from then on: after F + 1
      passes of its own reconciler it is gone, after F + 1 passes of the other so is the HelmApp, and
      nothing the HelmApp owned is left exactly if its status was up to date. */
  lemma OperatorDeletionClears(o: Oracle, s: State, foreign: set<string>, failures: nat)
    requires s.iop.Some? && s.iop.value.deleting && Tracked(s, foreign) && FailsAtMost(o, s.world, failures)
    requires Live(s) && s.app.value.managed && s.app.value.finalizer && s.app.value.status.Some?
    ensures var s1 := RepeatIop(o, s, failures + 1);
      var end := Repeat(o, s1, failures + 1);
      s1.iop.None? && end.app.None? && (end.world.releases.Keys <= foreign <==> Synced(s, foreign))
  {
    var s1 := RepeatIop(o, s, failures + 1);
    LeavingCosts(o, s, s.app.value, failures + 1);
    FailsAtMostLater(o, s.world, s1.world, failures);
    assert Left(s1, s.app.value);
    var t := State(None, s.app, s1.world);
    assert s1 == Step(o, t, DeleteHelmApp);
    DeletionClearsIff(o, t, foreign, failures);
  }
}
