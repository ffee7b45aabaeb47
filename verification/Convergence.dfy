/** Where repeated passes lead: fixpoints, revisions, and independence of the path taken. */
module Convergence {
  import opened Prelude
  import opened Types
  import opened Helm
  import opened HelmApp
  import opened Effects
  import opened Removal
  import opened Passes
  import opened Protocol
  import opened PhaseLaws

  /** Names are distinct and not empty, and there is a repository. */
  predicate WellNamed(spec: Spec) {
    Distinct(spec.components) && "" !in Names(spec.components) && spec.repo.Some?
  }

  /** The chart found for the requested version carries exactly that version. */
  predicate Pinned(o: Oracle, spec: Spec, c: Component) {
    spec.repo.Some? && Located(o, spec, c).version == c.version
  }

  predicate Live(s: State) {
    s.app.Some? && !s.app.value.deleting
  }

  /** A pass during which nothing failed. */
  ghost predicate Succeeds(o: Oracle, s: State) {
    AllOk(o, s.world, Reconcile(o, s).1.world)
  }

  /** A pass, whatever fails, leaves a live object live and its spec alone. */
  lemma PassStaysLive(o: Oracle, s: State)
    requires Live(s)
    ensures var s' := Reconcile(o, s).1;
      Live(s') && s'.app.value.spec == s.app.value.spec && s.world.trace <= s'.world.trace
  {
    PassUnfolded(o, s);
    LivePass(o, Prepared(o, s));
  }

  // ---- A pass during which nothing fails ----

  lemma SuccessUnfolded(o: Oracle, s: State)
    requires Live(s) && !CannotStart(s.app.value) && Succeeds(o, s)
    ensures var p := Prepared(o, s);
      var run := RunLive(o, p.app.value, p.world);
      && Reconcile(o, s) == ReconcileLive(o, p) && OpenHelm(o, p.world).0
      && p.world.releases == s.world.releases && p.app.value == s.app.value.(finalizer := true)
      && WritesStatus(o, p) && Reconcile(o, s).1.world.releases == run.end.releases
      && Reconcile(o, s).1.app == Some(p.app.value.(status := Some(Status(
           OverallPhase(false, run.statuses + run.retained), run.statuses + run.retained))))
      && AllOk(o, run.start, run.middle) && AllOk(o, run.middle, run.end)
  {
    PassUnfolded(o, s);
    var p, s' := Prepared(o, s), Reconcile(o, s).1;
    var w := OpenHelm(o, p.world).1;
    LivePass(o, p);
    assert o.replies(|p.world.trace|).Ok?;
    assert |w.trace| == |p.world.trace| + 2 ==> o.replies(|p.world.trace| + 1).Ok?;
    LiveUnfolded(o, p);
    LiveRunEffect(o, p.app.value, p.world);
  }

  /** What a fully successful pass makes of the store and the status. */
  lemma SuccessfulPass(o: Oracle, s: State)
    requires Live(s) && WellNamed(s.app.value.spec) && Succeeds(o, s)
    ensures var (outcome, s') := Reconcile(o, s);
      var spec, cs := s.app.value.spec, s.app.value.spec.components;
      && (outcome.Done? || outcome.RequeueAfter?)
      && s'.app.Some? && s'.app.value.status.Some?
      && s'.app.value == s.app.value.(finalizer := true, status := s'.app.value.status)
      && var statuses := s'.app.value.status.value.components;
      && s'.app.value.status.value.phase == OverallPhase(false, statuses)
      && |statuses| == |cs|
      && (forall i | 0 <= i < |cs| ::
            var after := Find(s'.world.releases, cs[i].name);
            && Converged(o, spec, cs[i], Find(s.world.releases, cs[i].name), after)
            && statuses[i] == StatusOf(cs[i].name, after.value))
      && (forall n | n !in Names(cs) :: Find(s'.world.releases, n) ==
            if n in Recorded(s.app.value) && n != "" then None else Find(s.world.releases, n))
  {
    SuccessUnfolded(o, s);
    var p, s' := Prepared(o, s), Reconcile(o, s).1;
    var app := p.app.value;
    var cs := app.spec.components;
    var run := RunLive(o, app, p.world);
    SweepEffect(o, Names(cs), RecordedList(app), run.middle);
    assert run.end.releases.Keys * (StatusNames(RecordedList(app)) - Names(cs) - {""}) == {};
    assert run.retained == [] && run.statuses + run.retained == run.statuses;
    ComponentsCalls(o, app.spec, cs, run.start);
    ComponentsFrame(o, app.spec, cs, run.start);
    forall i | 0 <= i < |cs|
      ensures var after := Find(s'.world.releases, cs[i].name);
        && Converged(o, app.spec, cs[i], Find(s.world.releases, cs[i].name), after)
        && run.statuses[i] == StatusOf(cs[i].name, after.value)
    {
      assert cs[i] in cs;
      ComponentsConverge(o, app.spec, cs, run.start, i);
    }
    forall n | n !in Names(cs)
      ensures Find(s'.world.releases, n) ==
        if n in Recorded(app) && n != "" then None else Find(s.world.releases, n)
    {
      assert n in Recorded(app) && n != "" ==> n in StatusNames(RecordedList(app)) - Names(cs) - {""};
    }
  }

  predicate AllPinned(o: Oracle, spec: Spec) {
    forall c | c in spec.components :: Pinned(o, spec, c)
  }

  predicate AllMatch(releases: Releases, spec: Spec) {
    forall c | c in spec.components :: Matches(spec, c, Find(releases, c.name))
  }

  /** Apart from foreign releases the store holds exactly what the spec asks for. */
  predicate Realizes(releases: Releases, spec: Spec, foreign: set<string>) {
    releases.Keys - foreign == Names(spec.components) - foreign && AllMatch(releases, spec)
  }

  /** What a successful pass leaves under a component's name: its own values, over the global ones unless it
      ignores those; the release as it was if it was up to date, and otherwise the next revision, deployed
      from the component's chart as it is found in the repository. */
  lemma SuccessStores(o: Oracle, s: State, i: nat)
    requires Live(s) && WellNamed(s.app.value.spec) && Succeeds(o, s) && i < |s.app.value.spec.components|
    ensures var spec, c := s.app.value.spec, s.app.value.spec.components[i];
      var before, after := Find(s.world.releases, c.name), Find(Reconcile(o, s).1.world.releases, c.name);
      && after.Some? && AskedValues(spec, c, after.value.values)
      && (UpToDate(spec, c, before) ==> after == before)
      && (!UpToDate(spec, c, before) ==>
            && AskedChart(o, spec, c, after.value.chart) && after.value.status == "deployed"
            && after.value.revision == (if before.Some? then before.value.revision + 1 else 1)
            && after.value.resources == o.rendered(after.value.chart, after.value.values))
  {
    SuccessfulPass(o, s);
    var c := s.app.value.spec.components[i];
    MatchesIsUpToDate(s.app.value.spec, c, Find(s.world.releases, c.name));
    assert Converged(o, s.app.value.spec, c, Find(s.world.releases, c.name),
                     Find(Reconcile(o, s).1.world.releases, c.name));
  }

  /** After a successful pass a component's release matches exactly if its chart is pinned or it matched
      before, and it is deployed exactly if it did not match before or was deployed already. */
  lemma SuccessMatches(o: Oracle, s: State, i: nat)
    requires Live(s) && WellNamed(s.app.value.spec) && Succeeds(o, s) && i < |s.app.value.spec.components|
    ensures var spec, c := s.app.value.spec, s.app.value.spec.components[i];
      var before, after := Find(s.world.releases, c.name), Find(Reconcile(o, s).1.world.releases, c.name);
      && after.Some?
      && (Matches(spec, c, after) <==> Pinned(o, spec, c) || Matches(spec, c, before))
      && (after.value.status == DEPLOYED <==> !Matches(spec, c, before) || before.value.status == DEPLOYED)
      && Revision(after) == Revision(before) + (if Matches(spec, c, before) then 0 else 1)
      && (if Matches(spec, c, before) then after == before else MadeFor(o, spec, c, after.value))
  {
    SuccessfulPass(o, s);
    var c := s.app.value.spec.components[i];
    assert Converged(o, s.app.value.spec, c, Find(s.world.releases, c.name),
                     Find(Reconcile(o, s).1.world.releases, c.name));
  }

  /** The owned releases after a successful pass are those the spec names. */
  lemma SuccessKeys(o: Oracle, s: State, foreign: set<string>)
    requires Live(s) && WellNamed(s.app.value.spec) && Tracked(s, foreign) && Succeeds(o, s)
    ensures var s' := Reconcile(o, s).1;
      && s'.world.releases.Keys - foreign == Names(s.app.value.spec.components) - foreign
      && Tracked(s', foreign) && Synced(s', foreign) && Live(s') && s'.app.value.spec == s.app.value.spec
  {
    SuccessfulPass(o, s);
    HelmAppPassTracks(o, s, foreign);
    SuccessfulWriteSyncs(o, s, foreign);
    var s', cs := Reconcile(o, s).1, s.app.value.spec.components;
    forall n | n in s'.world.releases && n !in foreign ensures n in Names(cs) {
      assert n !in Names(cs) ==> Find(s'.world.releases, n) != None && n in s.world.releases.Keys - foreign;
    }
    forall n | n in Names(cs) ensures n in s'.world.releases {
      var c :| c in cs && c.name == n;
      var i :| 0 <= i < |cs| && cs[i] == c;
      assert Find(s'.world.releases, cs[i].name).Some?;
    }
  }

  /** A successful pass leaves exactly what the spec asks for if and only if each component was pinned
      or matched already. */
  lemma SuccessRealizesIff(o: Oracle, s: State, foreign: set<string>)
    requires Live(s) && WellNamed(s.app.value.spec) && Tracked(s, foreign) && Succeeds(o, s)
    ensures var spec := s.app.value.spec;
      Realizes(Reconcile(o, s).1.world.releases, spec, foreign) <==>
      forall c | c in spec.components :: Pinned(o, spec, c) || Matches(spec, c, Find(s.world.releases, c.name))
  {
    SuccessKeys(o, s, foreign);
    var spec, cs := s.app.value.spec, s.app.value.spec.components;
    forall c | c in cs
      ensures Matches(spec, c, Find(Reconcile(o, s).1.world.releases, c.name)) <==>
        Pinned(o, spec, c) || Matches(spec, c, Find(s.world.releases, c.name))
    {
      var i :| 0 <= i < |cs| && cs[i] == c;
      SuccessMatches(o, s, i);
    }
  }

  // ---- Revisions ----

  /** In one pass, whatever fails, a release of the spec takes at most one step. */
  lemma PassAdvances(o: Oracle, s: State, c: Component)
    requires Live(s) && Distinct(s.app.value.spec.components) && c in s.app.value.spec.components
    ensures var s' := Reconcile(o, s).1;
      && Advanced(o, s.app.value.spec, c, Find(s.world.releases, c.name), Find(s'.world.releases, c.name))
      && Live(s') && s'.app.value.spec == s.app.value.spec
  {
    PassUnfolded(o, s);
    PassStaysLive(o, s);
    var p := Prepared(o, s);
    var app := p.app.value;
    LivePass(o, p);
    if OpenHelm(o, p.world).0 && !CannotStart(app) {
      var run := RunLive(o, app, p.world);
      LiveUnfolded(o, p);
      ComponentsAdvance(o, app.spec, app.spec.components, run.start, c);
      SweepEffect(o, Names(app.spec.components), RecordedList(app), run.middle);
    }
  }

  /** However many passes run over an unchanged spec, and whatever fails, a pinned component's release
      gains at most one revision, and gains it only by coming to match. */
  lemma {:induction false} AtMostOneRevision(o: Oracle, s: State, c: Component, n: nat)
    requires Live(s) && Distinct(s.app.value.spec.components) && c in s.app.value.spec.components
    requires Pinned(o, s.app.value.spec, c)
    ensures var before, after := Find(s.world.releases, c.name), Find(Repeat(o, s, n).world.releases, c.name);
      || after == before
      || (!Matches(s.app.value.spec, c, before) && Matches(s.app.value.spec, c, after)
          && Revision(after) == Revision(before) + 1)
    decreases n
  {
    if n > 0 {
      PassAdvances(o, s, c);
      AtMostOneRevision(o, Reconcile(o, s).1, c, n - 1);
    }
  }

  /** A release with the right version and values is never touched again, whatever chart it was made
      from and even if it is recorded as failed. */
  lemma {:induction false} MatchingReleaseStays(o: Oracle, s: State, c: Component, n: nat)
    requires Live(s) && Distinct(s.app.value.spec.components) && c in s.app.value.spec.components
    requires Matches(s.app.value.spec, c, Find(s.world.releases, c.name))
    ensures Find(Repeat(o, s, n).world.releases, c.name) == Find(s.world.releases, c.name)
    decreases n
  {
    if n > 0 {
      PassAdvances(o, s, c);
      MatchingReleaseStays(o, Reconcile(o, s).1, c, n - 1);
    }
  }

  lemma UnpinnedOnce(o: Oracle, s: State, i: nat)
    requires Live(s) && WellNamed(s.app.value.spec) && i < |s.app.value.spec.components|
    requires var c := s.app.value.spec.components[i];
      !Pinned(o, s.app.value.spec, c) && !Matches(s.app.value.spec, c, Find(s.world.releases, c.name))
    requires forall k: nat | |s.world.trace| <= k :: o.replies(k).Ok?
    ensures var c, s' := s.app.value.spec.components[i], Reconcile(o, s).1;
      && Live(s') && s'.app.value.spec == s.app.value.spec && s.world.trace <= s'.world.trace
      && !Matches(s.app.value.spec, c, Find(s'.world.releases, c.name))
      && Revision(Find(s'.world.releases, c.name)) == Revision(Find(s.world.releases, c.name)) + 1
  {
    PassStaysLive(o, s);
    SuccessMatches(o, s, i);
  }

  /** Without the pin every successful pass adds a revision, for ever. */
  lemma {:induction false} UnpinnedGrows(o: Oracle, s: State, i: nat, n: nat)
    requires Live(s) && WellNamed(s.app.value.spec) && i < |s.app.value.spec.components|
    requires var c := s.app.value.spec.components[i];
      !Pinned(o, s.app.value.spec, c) && !Matches(s.app.value.spec, c, Find(s.world.releases, c.name))
    requires forall k: nat | |s.world.trace| <= k :: o.replies(k).Ok?
    ensures var name := s.app.value.spec.components[i].name;
      Revision(Find(Repeat(o, s, n).world.releases, name)) == Revision(Find(s.world.releases, name)) + n
    decreases n
  {
    if n > 0 {
      UnpinnedOnce(o, s, i);
      UnpinnedGrows(o, Reconcile(o, s).1, i, n - 1);
    }
  }

  // ---- What SUCCEEDED means ----

  lemma SucceededKeepsNothing(o: Oracle, s: State)
    requires s.app.Some? && !s.app.value.deleting && WritesStatus(o, s)
    requires ReconcileLive(o, s).1.app.value.status.value.phase == SUCCEEDED
    ensures var run := RunLive(o, s.app.value, s.world);
      && run.retained == [] && s.app.value.spec.components != []
      && ReconcileLive(o, s).1.world.releases == run.end.releases
      && Recorded(ReconcileLive(o, s).1.app.value) == Names(s.app.value.spec.components)
      && forall t | t in run.statuses :: t.status == DEPLOYED
  {
    LiveUnfolded(o, s);
    LiveRunEffect(o, s.app.value, s.world);
    var run := RunLive(o, s.app.value, s.world);
    var all := run.statuses + run.retained;
    SucceededIff(all);
    assert |DEPLOYED| != |FAILED_STATUS|;
    SomeFailed(run.retained);
    assert forall t | t in run.retained :: t in all;
    assert run.retained == [] && all == run.statuses;
  }

  predicate DeployedFor(o: Oracle, spec: Spec, c: Component, before: Option<Release>, r: Option<Release>) {
    && r.Some? && r.value.status == DEPLOYED
    && (if r == before then Matches(spec, c, r) else MadeFor(o, spec, c, r.value))
  }

  lemma SucceededComponent(o: Oracle, s: State, c: Component)
    requires s.app.Some? && !s.app.value.deleting && Distinct(s.app.value.spec.components) && WritesStatus(o, s)
    requires ReconcileLive(o, s).1.app.value.status.value.phase == SUCCEEDED && c in s.app.value.spec.components
    ensures c.name != "" && DeployedFor(o, s.app.value.spec, c, Find(s.world.releases, c.name),
                              Find(ReconcileLive(o, s).1.world.releases, c.name))
  {
    var app, cs := s.app.value, s.app.value.spec.components;
    var run := RunLive(o, app, s.world);
    SucceededKeepsNothing(o, s);
    LiveRunEffect(o, app, s.world);
    SweepEffect(o, Names(cs), RecordedList(app), run.middle);
    var i :| 0 <= i < |cs| && cs[i] == c;
    assert run.statuses[i] in run.statuses;
    ComponentsDeployed(o, app.spec, cs, run.start, i);
    assert Find(run.end.releases, c.name) == Find(run.middle.releases, c.name);
  }

  /** A pass that writes SUCCEEDED records the spec's names alone and leaves every component's release
      deployed: one that was there and matches, or a new one made from what the spec asks for. It then
      matches, unless it is new and its chart was found at another version. */
  lemma SucceededIsTrue(o: Oracle, s: State)
    requires s.app.Some? && !s.app.value.deleting && Distinct(s.app.value.spec.components) && WritesStatus(o, s)
    requires ReconcileLive(o, s).1.app.value.status.value.phase == SUCCEEDED
    ensures var spec, s' := s.app.value.spec, ReconcileLive(o, s).1;
      && spec.components != [] && Recorded(s'.app.value) == Names(spec.components)
      && forall c | c in spec.components ::
           var before, r := Find(s.world.releases, c.name), Find(s'.world.releases, c.name);
           && c.name != "" && DeployedFor(o, spec, c, before, r)
           && (Matches(spec, c, r) <==> Pinned(o, spec, c) || r == before)
  {
    SucceededKeepsNothing(o, s);
    forall c | c in s.app.value.spec.components
      ensures c.name != "" && DeployedFor(o, s.app.value.spec, c, Find(s.world.releases, c.name),
                                Find(ReconcileLive(o, s).1.world.releases, c.name))
    {
      SucceededComponent(o, s, c);
    }
  }

  // ---- Panics ----

  /** A pass whose calls all succeed dereferences nil exactly when a deleted object has no status, or
      a live one has components but no repository. */
  lemma PanicsIff(o: Oracle, s: State)
    requires s.app.Some? && Succeeds(o, s)
    ensures Reconcile(o, s).0 == Panic <==>
      if s.app.value.deleting then s.app.value.status.None? else CannotStart(s.app.value)
  {
    PassUnfolded(o, s);
    var p := Prepared(o, s);
    if s.app.value.deleting { DeletePass(o, p); } else { LivePass(o, p); }
    assert o.replies(|p.world.trace|).Ok?;
    var w1 := Ask(o, p.world, NewConfig).1;
    assert |Reconcile(o, s).1.world.trace| > |w1.trace| ==> o.replies(|w1.trace|).Ok?;
  }
}
