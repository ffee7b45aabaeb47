/** Inputs on which the promises of the other modules fail when their conditions are dropped. */
module Limits {
  import opened Prelude
  import opened Types
  import opened Helm
  import opened HelmApp
  import opened Effects
  import opened Removal
  import opened Passes
  import opened Protocol
  import opened Deletion
  import opened Convergence
  import opened Fixpoints
  import opened History
  import opened Retry

  /** Every call succeeds but the k-th, which fails with or without having its effect; every chart is found
      at the version asked for. */
  function FailsOnce(k: nat, applied: bool): Oracle {
    Oracle(i => if i == k then Err(applied) else Ok, (r: ChartRef) => r.version, (c, v) => [])
  }

  lemma {:induction false} NoFailures(k: nat, applied: bool, from: nat, upto: nat)
    requires k < from
    ensures Failures(FailsOnce(k, applied), from, upto) == 0
    decreases upto
  {
    if from < upto { NoFailures(k, applied, from, upto - 1); }
  }

  const ONE := Component("demo", "gateway", "1.21.1", None, false)
  const ONE_SPEC := Spec([ONE], None, Some(Repo("istio", "url")))

  /** A HelmApp with one component, nothing installed, and an empty status. */
  const START := State(None, Some(App(ONE_SPEC, Some(Status(UNKNOWN, [])), true, false, false)), World(map[], []))

  /** The status write of an installing pass is lost and the HelmApp is then deleted: the finalizer goes
      at once although nothing fails any more, and the release stays. */
  lemma LostStatusWriteLeaks()
    ensures var o := FailsOnce(8, false);
      var s1 := Reconcile(o, START).1;
      var end := Repeat(o, Step(o, s1, DeleteHelmApp), 1);
      && Invariant(START, {}) && s1.app == START.app
      && end.app.None? && "demo" in end.world.releases
  {
    var o := FailsOnce(8, false);
    var s1 := Reconcile(o, START).1;
    var w := OpenHelm(o, Ask(o, START.world, GetApp).1).1;
    ComponentsOne(o, ONE_SPEC, ONE, w);
    assert |w.trace| == 3;
    assert s1.app == START.app && "demo" in s1.world.releases && |s1.world.trace| == 9;
    HelmAppPassTracks(o, START, {});
    forall upto: nat ensures Failures(o, 9, upto) <= 0 { NoFailures(8, false, 9, upto); }
    assert "demo" in s1.world.releases.Keys - {};
    var d := Step(o, s1, DeleteHelmApp);
    DeletionClearsIff(o, s1, {}, 0);
    RepeatShrinks(o, d, 1);
    assert Find(Repeat(o, d, 1).world.releases, "demo") == Find(s1.world.releases, "demo");
  }

  /** In a pass over START, calls 3 to 6 locate the chart, load it, look up the release and install it. */
  lemma FirstPass(k: nat, applied: bool)
    requires 3 <= k <= 6
    ensures var o := FailsOnce(k, applied);
      var run := RunLive(o, START.app.value, Prepared(o, START).world);
      && |run.start.trace| == 3 && run.start.releases == map[] && OpenHelm(o, Prepared(o, START).world).0
      && run.statuses == [ReconcileComponent(o, ONE_SPEC, ONE, run.start).status] && run.retained == []
      && run.end == ReconcileComponent(o, ONE_SPEC, ONE, run.start).world
      && o.replies(|run.end.trace|).Ok?
  {
    var o := FailsOnce(k, applied);
    var run := RunLive(o, START.app.value, Prepared(o, START).world);
    ComponentsOne(o, ONE_SPEC, ONE, run.start);
    assert |run.start.trace| == 3;
  }

  /** A first install whose chart is not found or cannot be loaded, whose lookup fails, or that fails before
      Helm records it, is reported neither as an error nor for a retry. */
  lemma QuietFailure(k: nat)
    requires 3 <= k <= 6
    ensures var o := FailsOnce(k, false);
      var (outcome, s1) := Reconcile(o, START);
      outcome == Done && s1.world.releases == map[] && s1.app.value.status.value.phase == RECONCILING
  {
    var o := FailsOnce(k, false);
    var p := Prepared(o, START);
    var run := RunLive(o, START.app.value, p.world);
    FirstPass(k, false);
    ReportsFailedIff(o, ONE_SPEC, ONE, run.start);
    LiveUnfolded(o, p);
    assert ReportsNothing(o, ONE_SPEC, ONE, run.start);
    assert |UNKNOWN_STATUS| != |DEPLOYED| && |UNKNOWN_STATUS| != |FAILED_STATUS|;
    assert run.statuses + run.retained == run.statuses && run.statuses[0] in run.statuses;
  }

  /** A first install that Helm records as failed is never tried again, though nothing fails any more: the
      release stays failed and every later pass asks for a retry that does nothing. */
  lemma FailedInstallStays(n: nat)
    ensures var o := FailsOnce(6, true);
      var s1 := Reconcile(o, START).1;
      var later := Repeat(o, s1, n);
      && "demo" in later.world.releases && later.world.releases["demo"].status == FAILED_STATUS
      && later.world.releases["demo"].revision == 1
      && Reconcile(o, later).0 == RequeueAfter
  {
    var o := FailsOnce(6, true);
    var p, s1 := Prepared(o, START), Reconcile(o, START).1;
    var run := RunLive(o, START.app.value, p.world);
    FirstPass(6, true);
    LiveUnfolded(o, p);
    assert s1.world.releases == run.end.releases && |s1.world.trace| > 6;
    var r := s1.world.releases["demo"];
    assert r.status == FAILED_STATUS && r.revision == 1;
    assert r.values == EffectiveValues(ONE_SPEC, ONE) && r.chart.version == ONE.version;
    FailedForGood(o, s1, 0, n);
  }

  /** A HelmApp whose first pass cannot reach Helm, deleted before the next one, is never let go. */
  lemma DeletedTooSoon(n: nat)
    ensures var o := FailsOnce(3, false);
      var s := Run(o, State(None, None, World(map[], [])), [CreateHelmApp(ONE_SPEC), HelmAppPass, DeleteHelmApp]);
      s.app.Some? && s.app.value.deleting && Repeat(o, s, n).app == s.app
  {
    var o := FailsOnce(3, false);
    var s0 := State(None, None, World(map[], []));
    var actions := [CreateHelmApp(ONE_SPEC), HelmAppPass, DeleteHelmApp];
    var s1 := Step(o, s0, CreateHelmApp(ONE_SPEC));
    var s2 := Step(o, s1, HelmAppPass);
    var s3 := Step(o, s2, DeleteHelmApp);
    assert actions[1..] == [HelmAppPass, DeleteHelmApp] && actions[1..][1..] == [DeleteHelmApp];
    assert Run(o, s3, []) == s3;
    assert Run(o, s2, [DeleteHelmApp]) == Run(o, s3, [DeleteHelmApp][1..]) && [DeleteHelmApp][1..] == [];
    assert Run(o, s0, actions) == s3;
    StuckWithoutStatus(o, s3, n);
  }

  /** Two components of one name that ask for different versions or values undo each other in every pass. */
  lemma {:induction false} DuplicatesNeverSettle(o: Oracle, s: State, a: Component, b: Component, n: nat)
    requires Live(s) && s.app.value.spec.components == [a, b] && a.name == b.name != ""
    requires !SameRequest(s.app.value.spec, a, b) && Pinned(o, s.app.value.spec, a) && Pinned(o, s.app.value.spec, b)
    requires Matches(s.app.value.spec, b, Find(s.world.releases, b.name))
    requires forall k: nat | |s.world.trace| <= k :: o.replies(k).Ok?
    ensures Revision(Find(Repeat(o, s, n).world.releases, b.name)) == Revision(Find(s.world.releases, b.name)) + 2 * n
    decreases n
  {
    if n > 0 {
      DuplicatesOnce(o, s, a, b);
      DuplicatesNeverSettle(o, Reconcile(o, s).1, a, b, n - 1);
    }
  }

  lemma DuplicatesOnce(o: Oracle, s: State, a: Component, b: Component)
    requires Live(s) && s.app.value.spec.components == [a, b] && a.name == b.name != ""
    requires !SameRequest(s.app.value.spec, a, b) && Pinned(o, s.app.value.spec, a) && Pinned(o, s.app.value.spec, b)
    requires Matches(s.app.value.spec, b, Find(s.world.releases, b.name))
    requires forall k: nat | |s.world.trace| <= k :: o.replies(k).Ok?
    ensures var s' := Reconcile(o, s).1;
      && Live(s') && s'.app.value.spec == s.app.value.spec && s.world.trace <= s'.world.trace
      && Matches(s.app.value.spec, b, Find(s'.world.releases, b.name))
      && Revision(Find(s'.world.releases, b.name)) == Revision(Find(s.world.releases, b.name)) + 2
  {
    PassUnfolded(o, s);
    PassStaysLive(o, s);
    var p := Prepared(o, s);
    var app := p.app.value;
    LivePass(o, p);
    LiveUnfolded(o, p);
    var run := RunLive(o, app, p.world);
    DuplicatesTwice(o, app.spec, a, b, run.start);
    SweepEffect(o, Names(app.spec.components), RecordedList(app), run.middle);
    assert b in app.spec.components;
  }

  lemma DuplicatesTwice(o: Oracle, spec: Spec, a: Component, b: Component, w: World)
    requires spec.repo.Some? && a.name == b.name != ""
    requires !SameRequest(spec, a, b) && Pinned(o, spec, a) && Pinned(o, spec, b)
    requires Matches(spec, b, Find(w.releases, b.name))
    requires forall k: nat | |w.trace| <= k :: o.replies(k).Ok?
    ensures var w' := ReconcileComponents(o, spec, [a, b], w).1;
      && Matches(spec, b, Find(w'.releases, b.name))
      && Revision(Find(w'.releases, b.name)) == Revision(Find(w.releases, b.name)) + 2
  {
    var w1 := ReconcileComponent(o, spec, a, w).world;
    var w2 := ReconcileComponent(o, spec, b, w1).world;
    ComponentCalls(o, spec, a, w);
    ComponentConverges(o, spec, a, w);
    ComponentConverges(o, spec, b, w1);
    assert [a, b][1..] == [b] && [b][1..] == [];
    assert ReconcileComponents(o, spec, [b], w1).1 == w2;
  }

  // ---- The conditions of the other modules can be met ----

  /** When nothing fails, every history of well-named specs satisfies what the results about histories ask. */
  lemma {:induction false} HistoriesExist(o: Oracle, s: State, specs: seq<Spec>)
    requires forall k: nat :: o.replies(k).Ok?
    requires forall spec | spec in specs :: WellNamed(spec)
    ensures EachSucceeds(o, s, specs)
    decreases specs
  {
    if specs != [] {
      assert specs[|specs| - 1] in specs;
      HistoriesExist(o, s, specs[..|specs| - 1]);
    }
  }

  /** Nothing fails and every chart is found at the version asked for. */
  const HEALTHY := Oracle(k => Ok, (r: ChartRef) => r.version, (c, v) => [])

  const OTHERS := map["other" := Release(Chart("x", "1"), map[], DEPLOYED, 1, [])]

  /** START beside somebody else's release. */
  const BESIDE := START.(world := World(OTHERS, []))

  /** Such a history, and two passes in a row of which the second changes nothing. */
  lemma HistoryExample()
    ensures Ready(BESIDE, {"other"}) && EachSucceeds(HEALTHY, BESIDE, [ONE_SPEC]) && AllPinned(HEALTHY, ONE_SPEC)
    ensures var s1 := Reconcile(HEALTHY, BESIDE).1;
      && WellNamed(ONE_SPEC) && Succeeds(HEALTHY, BESIDE) && Succeeds(HEALTHY, s1)
      && s1.world.releases.Keys - {"other"} == {"demo"}
      && Reconcile(HEALTHY, s1).1.world.releases == s1.world.releases && Reconcile(HEALTHY, s1).1.app == s1.app
  {
    assert OTHERS.Keys - {"other"} == {};
    assert WellNamed(ONE_SPEC) by { assert Names([ONE]) == {"demo"}; }
    HistoriesExist(HEALTHY, BESIDE, [ONE_SPEC]);
    SuccessKeys(HEALTHY, BESIDE, {"other"});
    assert Names([ONE]) == {"demo"};
    assert |"demo"| != |"other"|;
    SettlesIff(HEALTHY, ONE_SPEC, OTHERS);
    FixpointIff(HEALTHY, BESIDE);
  }
}
