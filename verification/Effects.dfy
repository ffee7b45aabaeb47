/** What the loops over components do to the release store, call by call. */
module Effects {
  import opened Prelude
  import opened Values
  import opened Types
  import opened Helm
  import opened HelmApp

  /** The release already has the version and values the component asks for. */
  predicate Matches(spec: Spec, c: Component, r: Option<Release>) {
    r.Some? && !HasConfigChanged(r.value, EffectiveValues(spec, c), c.version)
  }

  /** The release was made from exactly what the component asks for. */
  predicate MadeFor(o: Oracle, spec: Spec, c: Component, r: Release) {
    spec.repo.Some? && r.chart == Located(o, spec, c) && r.values == EffectiveValues(spec, c)
  }

  function Revision(r: Option<Release>): nat {
    if r.Some? then r.value.revision else 0
  }

  /** A release either stays as it is, or, not matching, is replaced by the next revision of it. */
  predicate Advanced(o: Oracle, spec: Spec, c: Component, before: Option<Release>, after: Option<Release>) {
    || after == before
    || (!Matches(spec, c, before) && after.Some? && MadeFor(o, spec, c, after.value)
        && after.value.revision == Revision(before) + 1)
  }

  function StatusOf(name: string, r: Release): ComponentStatus {
    ComponentStatus(name, r.status, Some(r.revision), r.resources)
  }

  /** What a component's release becomes when nothing fails. */
  predicate Converged(o: Oracle, spec: Spec, c: Component, before: Option<Release>, after: Option<Release>) {
    && after.Some?
    && (Matches(spec, c, before) ==> after == before)
    && (!Matches(spec, c, before) ==>
          && MadeFor(o, spec, c, after.value) && after.value.status == DEPLOYED
          && after.value.resources == o.rendered(after.value.chart, after.value.values)
          && after.value.revision == Revision(before) + 1)
  }

  ghost predicate NoUninstall(before: World, after: World) {
    && before.trace <= after.trace
    && forall i | |before.trace| <= i < |after.trace| :: !after.trace[i].Uninstall?
  }

  /** The new calls uninstall, install or upgrade only the given names. */
  ghost predicate UninstallsOnly(before: World, after: World, names: set<string>) {
    && before.trace <= after.trace
    && forall i | |before.trace| <= i < |after.trace| ::
         match after.trace[i]
         case Uninstall(n) => n in names
         case Install(_) => false
         case Upgrade(_) => false
         case _ => true
  }

  // ---- One component ----

  lemma OneMoreCall(before: World, w: World, w': World, c: Call)
    requires NoUninstall(before, w) && !c.Uninstall? && w'.trace == w.trace + [c]
    ensures NoUninstall(before, w')
  {
  }

  lemma DescribeCalls(o: Oracle, before: World, w: World, name: string, r: Option<Release>, failed: bool)
    requires NoUninstall(before, w)
    ensures var run := Describe(o, w, name, r, failed);
      NoUninstall(before, run.world) && run.status.name == name
  {
    OneMoreCall(before, w, Ask(o, w, ParseManifest(name)).1, ParseManifest(name));
  }

  lemma DeployCalls(o: Oracle, before: World, spec: Spec, c: Component, w: World, call: Call)
    requires spec.repo.Some? && NoUninstall(before, w) && !call.Uninstall?
    ensures var run := DeployComponent(o, spec, c, w, call);
      NoUninstall(before, run.world) && run.status.name == c.name
  {
    var (reply, r, w') := Deploy(o, w, call, c.name, Located(o, spec, c), EffectiveValues(spec, c));
    OneMoreCall(before, w, w', call);
    DescribeCalls(o, before, w', c.name, r, !reply.Ok?);
  }

  lemma ComponentCalls(o: Oracle, spec: Spec, c: Component, w: World)
    requires spec.repo.Some?
    ensures var run := ReconcileComponent(o, spec, c, w);
      NoUninstall(w, run.world) && run.status.name == c.name
  {
    var (r1, w1) := Ask(o, w, LocateChart(c.chart));
    OneMoreCall(w, w, w1, LocateChart(c.chart));
    if r1.Ok? {
      var (r2, w2) := Ask(o, w1, LoadChart(c.chart));
      OneMoreCall(w, w1, w2, LoadChart(c.chart));
      if r2.Ok? {
        var (history, w3) := RunHistory(o, w2, c.name);
        OneMoreCall(w, w2, w3, History(c.name));
        DeployCalls(o, w, spec, c, w3, Install(c.name));
        DeployCalls(o, w, spec, c, w3, Upgrade(c.name));
        if history.Found? { DescribeCalls(o, w, w3, c.name, Some(history.release), false); }
      }
    }
  }

  lemma ComponentEffect(o: Oracle, spec: Spec, c: Component, w: World)
    requires spec.repo.Some?
    ensures var run := ReconcileComponent(o, spec, c, w);
      && (forall n | n != c.name || n == "" :: Find(run.world.releases, n) == Find(w.releases, n))
      && Advanced(o, spec, c, Find(w.releases, c.name), Find(run.world.releases, c.name))
  {
  }

  /** Only its own name is installed or upgraded: installed when it is missing, upgraded when it is
      there and does not match. */
  ghost predicate DeploysRightly(spec: Spec, c: Component, before: World, after: World) {
    && before.trace <= after.trace
    && forall i | |before.trace| <= i < |after.trace| ::
         && (after.trace[i].Install? ==> after.trace[i].name == c.name && c.name !in before.releases)
         && (after.trace[i].Upgrade? ==> after.trace[i].name == c.name && c.name in before.releases
                                         && !Matches(spec, c, Find(before.releases, c.name)))
  }

  lemma ComponentDeploysRightly(o: Oracle, spec: Spec, c: Component, w: World)
    requires spec.repo.Some?
    ensures DeploysRightly(spec, c, w, ReconcileComponent(o, spec, c, w).world)
  {
    var (r1, w1) := Ask(o, w, LocateChart(c.chart));
    var (r2, w2) := Ask(o, w1, LoadChart(c.chart));
    var (history, w3) := RunHistory(o, w2, c.name);
    assert DeploysRightly(spec, c, w, w3);
  }

  lemma ComponentConverges(o: Oracle, spec: Spec, c: Component, w: World)
    requires spec.repo.Some? && c.name != ""
    requires AllOk(o, w, ReconcileComponent(o, spec, c, w).world)
    ensures var run := ReconcileComponent(o, spec, c, w);
      var after := Find(run.world.releases, c.name);
      && Converged(o, spec, c, Find(w.releases, c.name), after)
      && run.status == StatusOf(c.name, after.value)
  {
    var n := |w.trace|;
    assert o.replies(n).Ok? && o.replies(n + 1).Ok? && o.replies(n + 2).Ok?;
  }

  /** A status of "deployed" is never written for a release that is not. */
  lemma ComponentDeployed(o: Oracle, spec: Spec, c: Component, w: World)
    requires spec.repo.Some?
    requires ReconcileComponent(o, spec, c, w).status.status == DEPLOYED
    ensures var before := Find(w.releases, c.name);
      var after := Find(ReconcileComponent(o, spec, c, w).world.releases, c.name);
      && c.name != "" && after.Some? && after.value.status == DEPLOYED
      && (if after == before then Matches(spec, c, after) else MadeFor(o, spec, c, after.value))
  {
  }

  // ---- One component, reply by reply ----

  /** The values a component asks for: its own, over the global ones unless it ignores those. */
  predicate AskedValues(spec: Spec, c: Component, values: Fields) {
    && (c.ignoreGlobalValues ==> values == AsMap(c.values))
    && (!c.ignoreGlobalValues ==> values == Merge(AsMap(spec.globalValues), AsMap(c.values)))
  }

  /** The chart and version a component asks for, found in the repository of the spec. */
  predicate AskedChart(o: Oracle, spec: Spec, c: Component, chart: Chart) {
    && chart.name == c.chart
    && spec.repo.Some? && chart.version == o.published(ChartRef(spec.repo.value.url, c.chart, c.version))
  }

  /** The chart is found and loaded, and the release looked up. */
  predicate Examined(o: Oracle, c: Component, w: World) {
    var n := |w.trace|;
    o.replies(n).Ok? && o.replies(n + 1).Ok? && o.replies(n + 2).Ok? && c.name != ""
  }

  /** The release is there at the version and with the values asked for. */
  predicate UpToDate(spec: Spec, c: Component, r: Option<Release>) {
    r.Some? && r.value.chart.version == c.version && AskedValues(spec, c, r.value.values)
  }

  lemma MatchesIsUpToDate(spec: Spec, c: Component, r: Option<Release>)
    ensures Matches(spec, c, r) <==> UpToDate(spec, c, r)
  {
  }

  /** The calls of a component: locate, load and look up, each only after the one before; then, unless the
      release is up to date, install it if it is missing and upgrade it if not; then, if there is a release
      to describe, parse its manifest. */
  lemma ComponentTrace(o: Oracle, spec: Spec, c: Component, w: World)
    requires spec.repo.Some?
    ensures var n, stored := |w.trace|, Find(w.releases, c.name);
      var trace := ReconcileComponent(o, spec, c, w).world.trace;
      && (!o.replies(n).Ok? ==> trace == w.trace + [LocateChart(c.chart)])
      && (o.replies(n).Ok? && !o.replies(n + 1).Ok? ==> trace == w.trace + [LocateChart(c.chart), LoadChart(c.chart)])
      && (o.replies(n).Ok? && o.replies(n + 1).Ok? ==>
            var looked := w.trace + [LocateChart(c.chart), LoadChart(c.chart), History(c.name)];
            if !Examined(o, c, w) then trace == looked
            else if UpToDate(spec, c, stored) then trace == looked + [ParseManifest(c.name)]
            else trace == looked + [if stored.None? then Install(c.name) else Upgrade(c.name)]
                          + (if o.replies(n + 3) == Err(false) then [] else [ParseManifest(c.name)]))
  {
    MatchesIsUpToDate(spec, c, Find(w.releases, c.name));
  }

  /** The store changes only by the deployment of an examined component that is not up to date, unless that
      leaves no record: then the component's name holds the next revision, made from the chart and values
      asked for, as deployed or as failed. */
  lemma ComponentStore(o: Oracle, spec: Spec, c: Component, w: World)
    requires spec.repo.Some?
    ensures var stored, reply := Find(w.releases, c.name), o.replies(|w.trace| + 3);
      var releases := ReconcileComponent(o, spec, c, w).world.releases;
      if Examined(o, c, w) && !UpToDate(spec, c, stored) && reply != Err(false) then
        && releases.Keys == w.releases.Keys + {c.name}
        && (forall n | n in w.releases && n != c.name :: releases[n] == w.releases[n])
        && var r := releases[c.name];
          && AskedChart(o, spec, c, r.chart) && AskedValues(spec, c, r.values)
          && r.status == (if reply.Ok? then "deployed" else "failed")
          && r.revision == (if stored.Some? then stored.value.revision + 1 else 1)
          && r.resources == o.rendered(r.chart, r.values)
      else releases == w.releases
  {
    MatchesIsUpToDate(spec, c, Find(w.releases, c.name));
  }

  /** The entry carries the component's name and describes the release that is up to date or was just
      recorded, with its resources if its manifest can be parsed; else it says that nothing is known. */
  lemma ComponentEntry(o: Oracle, spec: Spec, c: Component, w: World)
    requires spec.repo.Some?
    ensures var n, stored, run := |w.trace|, Find(w.releases, c.name), ReconcileComponent(o, spec, c, w);
      var known := Examined(o, c, w) && (UpToDate(spec, c, stored) || o.replies(n + 3) != Err(false));
      var parsed := o.replies(if UpToDate(spec, c, stored) then n + 3 else n + 4).Ok?;
      var r := Find(run.world.releases, c.name);
      && (known ==> r.Some? && run.status == ComponentStatus(
            c.name, r.value.status, Some(r.value.revision), if parsed then r.value.resources else []))
      && (!known ==> run.status == ComponentStatus(c.name, "unknown", None, []))
      && (run.failed <==> !Examined(o, c, w) || (!UpToDate(spec, c, stored) && !o.replies(n + 3).Ok?))
  {
    MatchesIsUpToDate(spec, c, Find(w.releases, c.name));
  }

  // ---- All components ----

  /** One component alone. */
  lemma ComponentsOne(o: Oracle, spec: Spec, c: Component, w: World)
    requires spec.repo.Some?
    ensures var run := ReconcileComponent(o, spec, c, w);
      ReconcileComponents(o, spec, [c], w) == ([run.status], run.world)
  {
    var run := ReconcileComponent(o, spec, c, w);
    assert [c][1..] == [] && [run.status] + [] == [run.status];
    assert ReconcileComponents(o, spec, [], run.world) == ([], run.world);
  }

  /** The components of a list are reconciled part after part, first part first. */
  lemma {:induction false} ComponentsSplit(o: Oracle, spec: Spec, a: seq<Component>, b: seq<Component>, w: World)
    requires spec.repo.Some? || a + b == []
    ensures var (sa, wa) := ReconcileComponents(o, spec, a, w);
      var (sb, wb) := ReconcileComponents(o, spec, b, wa);
      ReconcileComponents(o, spec, a + b, w) == (sa + sb, wb)
    decreases a
  {
    if a == [] {
      var sb := ReconcileComponents(o, spec, b, w).0;
      assert a + b == b && [] + sb == sb;
    } else {
      var run := ReconcileComponent(o, spec, a[0], w);
      assert (a + b)[0] == a[0] && (a + b)[1..] == a[1..] + b;
      ComponentsSplit(o, spec, a[1..], b, run.world);
      var (sa, wa) := ReconcileComponents(o, spec, a[1..], run.world);
      var sb := ReconcileComponents(o, spec, b, wa).0;
      assert [run.status] + (sa + sb) == ([run.status] + sa) + sb;
    }
  }

  predicate Named(statuses: seq<ComponentStatus>, cs: seq<Component>) {
    |statuses| == |cs| && forall i | 0 <= i < |cs| :: statuses[i].name == cs[i].name
  }

  lemma {:induction false} ComponentsCalls(o: Oracle, spec: Spec, cs: seq<Component>, w: World)
    requires spec.repo.Some? || cs == []
    ensures var (statuses, w') := ReconcileComponents(o, spec, cs, w);
      NoUninstall(w, w') && Named(statuses, cs)
    decreases cs
  {
    if cs != [] {
      ComponentCalls(o, spec, cs[0], w);
      ComponentsCalls(o, spec, cs[1..], ReconcileComponent(o, spec, cs[0], w).world);
    }
  }

  /** Only releases named in the spec change, and none is lost. */
  lemma {:induction false} ComponentsFrame(o: Oracle, spec: Spec, cs: seq<Component>, w: World)
    requires spec.repo.Some? || cs == []
    ensures var w' := ReconcileComponents(o, spec, cs, w).1;
      && (forall n | n !in Names(cs) || n == "" :: Find(w'.releases, n) == Find(w.releases, n))
      && w.releases.Keys <= w'.releases.Keys <= w.releases.Keys + Names(cs)
    decreases cs
  {
    if cs != [] {
      var c, w1 := cs[0], ReconcileComponent(o, spec, cs[0], w).world;
      ComponentEffect(o, spec, c, w);
      ComponentsFrame(o, spec, cs[1..], w1);
      assert cs == [c] + cs[1..];
      assert c in cs;
      assert Names(cs) == {c.name} + Names(cs[1..]);
      forall n | n in w.releases ensures n in w1.releases { assert Find(w1.releases, n).Some?; }
      forall n | n in w1.releases ensures n in w.releases || n == c.name { assert Find(w1.releases, n).Some?; }
    }
  }

  /** With distinct names, each release takes at most the one step its own component causes. */
  lemma {:induction false} ComponentsAdvance(o: Oracle, spec: Spec, cs: seq<Component>, w: World, c: Component)
    requires spec.repo.Some? && Distinct(cs) && c in cs
    ensures Advanced(o, spec, c, Find(w.releases, c.name),
                     Find(ReconcileComponents(o, spec, cs, w).1.releases, c.name))
    decreases cs
  {
    var w1 := ReconcileComponent(o, spec, cs[0], w).world;
    ComponentEffect(o, spec, cs[0], w);
    if c == cs[0] {
      FirstNotLater(cs);
      ComponentsFrame(o, spec, cs[1..], w1);
    } else {
      LaterNotFirst(cs, c);
      ComponentsAdvance(o, spec, cs[1..], w1, c);
    }
  }

  lemma FirstNotLater(cs: seq<Component>)
    requires cs != [] && Distinct(cs)
    ensures cs[0].name !in Names(cs[1..])
  {
    forall c | c in cs[1..] ensures c.name != cs[0].name {
      var j :| 0 <= j < |cs[1..]| && cs[1..][j] == c;
      assert cs[j + 1] == c;
    }
  }

  lemma LaterNotFirst(cs: seq<Component>, c: Component)
    requires c in cs && c != cs[0] && Distinct(cs)
    ensures c in cs[1..] && c.name != cs[0].name && Distinct(cs[1..])
  {
    var j :| 0 <= j < |cs| && cs[j] == c;
    assert cs[1..][j - 1] == c;
  }

  /** When nothing fails, every component's release converges and its status entry describes it. */
  lemma {:induction false} ComponentsConverge(o: Oracle, spec: Spec, cs: seq<Component>, w: World, i: nat)
    requires spec.repo.Some? && Distinct(cs) && i < |cs| && cs[i].name != ""
    requires AllOk(o, w, ReconcileComponents(o, spec, cs, w).1)
    ensures var (statuses, w') := ReconcileComponents(o, spec, cs, w);
      var after := Find(w'.releases, cs[i].name);
      && Converged(o, spec, cs[i], Find(w.releases, cs[i].name), after)
      && |statuses| == |cs| && statuses[i] == StatusOf(cs[i].name, after.value)
    decreases cs
  {
    var w1 := ReconcileComponent(o, spec, cs[0], w).world;
    ComponentCalls(o, spec, cs[0], w);
    ComponentsCalls(o, spec, cs, w);
    ComponentsCalls(o, spec, cs[1..], w1);
    if i == 0 {
      ComponentConverges(o, spec, cs[0], w);
      FirstNotLater(cs);
      ComponentsFrame(o, spec, cs[1..], w1);
    } else {
      ComponentEffect(o, spec, cs[0], w);
      assert cs[i].name != cs[0].name;
      ComponentsConverge(o, spec, cs[1..], w1, i - 1);
    }
  }

  /** A "deployed" entry is true of the store at the end of the loop. */
  lemma {:induction false} ComponentsDeployed(o: Oracle, spec: Spec, cs: seq<Component>, w: World, i: nat)
    requires spec.repo.Some? && Distinct(cs) && i < |cs|
    requires i < |ReconcileComponents(o, spec, cs, w).0|
    requires ReconcileComponents(o, spec, cs, w).0[i].status == DEPLOYED
    ensures var c := cs[i];
      var before, after := Find(w.releases, c.name), Find(ReconcileComponents(o, spec, cs, w).1.releases, c.name);
      && c.name != "" && after.Some? && after.value.status == DEPLOYED
      && (if after == before then Matches(spec, c, after) else MadeFor(o, spec, c, after.value))
    decreases cs
  {
    var w1 := ReconcileComponent(o, spec, cs[0], w).world;
    if i == 0 {
      ComponentDeployed(o, spec, cs[0], w);
      FirstNotLater(cs);
      ComponentsFrame(o, spec, cs[1..], w1);
    } else {
      ComponentEffect(o, spec, cs[0], w);
      assert cs[i].name != cs[0].name;
      ComponentsDeployed(o, spec, cs[1..], w1, i - 1);
    }
  }
}
