/** How far the history before a successful pass matters for its result, and how soon a result is reached. */
module History {
  import opened Prelude
  import opened Values
  import opened Types
  import opened HelmApp
  import opened Effects
  import opened Removal
  import opened Passes
  import opened Protocol
  import opened Deletion
  import opened Convergence

  // ---- The last pass decides ----

  /** What the releases of the given names are, apart from how often they were changed. */
  function Project(releases: Releases, names: set<string>): map<string, (string, Fields)> {
    map n | n in releases && n in names :: (releases[n].chart.version, releases[n].values)
  }

  /** A live object with every owned release named in its spec or status, about to be reconciled without
      a failure. */
  ghost predicate LastPass(o: Oracle, s: State, foreign: set<string>, spec: Spec) {
    Live(s) && s.app.value.spec == spec && WellNamed(spec) && Tracked(s, foreign) && Succeeds(o, s)
  }

  ghost predicate SameCharts(o1: Oracle, o2: Oracle, spec: Spec) {
    forall c | c in spec.components :: spec.repo.Some? ==> Located(o1, spec, c) == Located(o2, spec, c)
  }

  /** A release made by the last pass and one that was left alone look alike exactly if the chart is pinned. */
  lemma ComponentAgreesIff(o1: Oracle, s1: State, f1: set<string>, o2: Oracle, s2: State, f2: set<string>,
                           spec: Spec, i: nat)
    requires LastPass(o1, s1, f1, spec) && LastPass(o2, s2, f2, spec) && SameCharts(o1, o2, spec)
    requires i < |spec.components|
    ensures var c := spec.components[i];
      var r1, r2 := Find(Reconcile(o1, s1).1.world.releases, c.name), Find(Reconcile(o2, s2).1.world.releases, c.name);
      && r1.Some? && r2.Some?
      && ((r1.value.chart.version, r1.value.values) == (r2.value.chart.version, r2.value.values) <==>
          (Pinned(o1, spec, c) ||
           (Matches(spec, c, Find(s1.world.releases, c.name)) <==> Matches(spec, c, Find(s2.world.releases, c.name)))))
  {
    var c := spec.components[i];
    assert c in spec.components;
    SuccessMatches(o1, s1, i);
    SuccessMatches(o2, s2, i);
  }

  /** Two successful last passes over the same spec agree on its releases exactly if each component is
      pinned, or its release matched before both passes or before neither. */
  lemma LastPassesAgreeIff(o1: Oracle, s1: State, f1: set<string>, o2: Oracle, s2: State, f2: set<string>, spec: Spec)
    requires LastPass(o1, s1, f1, spec) && LastPass(o2, s2, f2, spec) && SameCharts(o1, o2, spec)
    ensures Project(Reconcile(o1, s1).1.world.releases, Names(spec.components)) ==
            Project(Reconcile(o2, s2).1.world.releases, Names(spec.components)) <==>
            forall c | c in spec.components ::
              Pinned(o1, spec, c) ||
              (Matches(spec, c, Find(s1.world.releases, c.name)) <==> Matches(spec, c, Find(s2.world.releases, c.name)))
  {
    var cs, r1, r2 := spec.components, Reconcile(o1, s1).1.world.releases, Reconcile(o2, s2).1.world.releases;
    var p1, p2 := Project(r1, Names(cs)), Project(r2, Names(cs));
    forall c | c in cs
      ensures c.name in p1 && c.name in p2
      ensures p1[c.name] == p2[c.name] <==>
        (Pinned(o1, spec, c) ||
         (Matches(spec, c, Find(s1.world.releases, c.name)) <==> Matches(spec, c, Find(s2.world.releases, c.name))))
    {
      var i :| 0 <= i < |cs| && cs[i] == c;
      ComponentAgreesIff(o1, s1, f1, o2, s2, f2, spec, i);
    }
    if forall c | c in cs :: p1[c.name] == p2[c.name] { SameProjection(cs, p1, p2); }
  }

  lemma SameProjection(cs: seq<Component>, p1: map<string, (string, Fields)>, p2: map<string, (string, Fields)>)
    requires p1.Keys <= Names(cs) && p2.Keys <= Names(cs)
    requires forall c | c in cs :: c.name in p1 && c.name in p2 && p1[c.name] == p2[c.name]
    ensures p1 == p2
  {
    forall n | n in p1 || n in p2 ensures n in p1 && n in p2 && p1[n] == p2[n] {
      var c :| c in cs && c.name == n;
    }
  }

  // ---- Histories of specs ----

  function DeployNext(o: Oracle, s: State, spec: Spec): State {
    Reconcile(o, Step(o, s, EditHelmApp(spec))).1
  }

  /** Each spec in turn is stored and then reconciled once. */
  function Deploys(o: Oracle, s: State, specs: seq<Spec>): State
    decreases specs
  {
    if specs == [] then s
    else DeployNext(o, Deploys(o, s, specs[..|specs| - 1]), specs[|specs| - 1])
  }

  ghost predicate EachSucceeds(o: Oracle, s: State, specs: seq<Spec>)
    decreases specs
  {
    specs == [] ||
    (var init, last := specs[..|specs| - 1], specs[|specs| - 1];
     && EachSucceeds(o, s, init)
     && WellNamed(last) && Succeeds(o, Step(o, Deploys(o, s, init), EditHelmApp(last))))
  }

  /** A live object whose status names every release that is not foreign. */
  ghost predicate Ready(s: State, foreign: set<string>) {
    Live(s) && Tracked(s, foreign) && Synced(s, foreign)
  }

  lemma EditIsLastPass(o: Oracle, s: State, spec: Spec, foreign: set<string>)
    requires Ready(s, foreign) && WellNamed(spec) && Succeeds(o, Step(o, s, EditHelmApp(spec)))
    ensures LastPass(o, Step(o, s, EditHelmApp(spec)), foreign, spec)
  {
    assert forall n | n in s.world.releases && n !in foreign :: n in s.world.releases.Keys - foreign;
    EditTracksIff(o, s, spec, foreign);
  }

  lemma {:induction false} DeploysStayReady(o: Oracle, s: State, specs: seq<Spec>, foreign: set<string>)
    requires Ready(s, foreign) && EachSucceeds(o, s, specs)
    ensures Ready(Deploys(o, s, specs), foreign)
    decreases specs
  {
    if specs != [] {
      var init, last := specs[..|specs| - 1], specs[|specs| - 1];
      DeploysStayReady(o, s, init, foreign);
      EditIsLastPass(o, Deploys(o, s, init), last, foreign);
      SuccessKeys(o, Step(o, Deploys(o, s, init), EditHelmApp(last)), foreign);
    }
  }

  lemma DeploysLastPass(o: Oracle, s: State, specs: seq<Spec>, foreign: set<string>)
    requires Ready(s, foreign) && specs != [] && EachSucceeds(o, s, specs)
    ensures var before, last := Deploys(o, s, specs[..|specs| - 1]), specs[|specs| - 1];
      var s1 := Step(o, before, EditHelmApp(last));
      && LastPass(o, s1, foreign, last) && s1.world.releases == before.world.releases
      && Deploys(o, s, specs) == Reconcile(o, s1).1
  {
    DeploysStayReady(o, s, specs[..|specs| - 1], foreign);
    EditIsLastPass(o, Deploys(o, s, specs[..|specs| - 1]), specs[|specs| - 1], foreign);
  }

  /** The releases a history leaves are those its last spec names, apart from foreign ones; and each is
      what the last spec asks for exactly if every component of it was pinned or matched before. */
  lemma DeploysRealizeLastIff(o: Oracle, s: State, specs: seq<Spec>, foreign: set<string>)
    requires Ready(s, foreign) && specs != [] && EachSucceeds(o, s, specs)
    ensures var last, before := specs[|specs| - 1], Deploys(o, s, specs[..|specs| - 1]).world.releases;
      var after := Deploys(o, s, specs).world.releases;
      && after.Keys - foreign == Names(last.components) - foreign
      && Names(last.components) <= after.Keys
      && (Realizes(after, last, foreign) <==>
          forall c | c in last.components :: Pinned(o, last, c) || Matches(last, c, Find(before, c.name)))
  {
    var s1 := Step(o, Deploys(o, s, specs[..|specs| - 1]), EditHelmApp(specs[|specs| - 1]));
    DeploysLastPass(o, s, specs, foreign);
    SuccessKeys(o, s1, foreign);
    SuccessRealizesIff(o, s1, foreign);
    SuccessNames(o, s1);
  }

  lemma SuccessNames(o: Oracle, s: State)
    requires Live(s) && WellNamed(s.app.value.spec) && Succeeds(o, s)
    ensures Names(s.app.value.spec.components) <= Reconcile(o, s).1.world.releases.Keys
  {
    forall c | c in s.app.value.spec.components ensures c.name in Reconcile(o, s).1.world.releases {
      var i :| 0 <= i < |s.app.value.spec.components| && s.app.value.spec.components[i] == c;
      SuccessMatches(o, s, i);
    }
  }

  lemma DeploysRealizeLast(o: Oracle, s: State, specs: seq<Spec>, foreign: set<string>)
    requires Ready(s, foreign) && specs != [] && EachSucceeds(o, s, specs) && AllPinned(o, specs[|specs| - 1])
    ensures Realizes(Deploys(o, s, specs).world.releases, specs[|specs| - 1], foreign)
  {
    DeploysRealizeLastIff(o, s, specs, foreign);
  }

  /** Two histories that end in the same spec leave the same owned releases exactly if each of its
      components is pinned, or matched before the last step of both histories or of neither. */
  lemma PathIndependenceIff(o1: Oracle, s1: State, specs1: seq<Spec>, f1: set<string>,
                            o2: Oracle, s2: State, specs2: seq<Spec>, f2: set<string>)
    requires Ready(s1, f1) && specs1 != [] && EachSucceeds(o1, s1, specs1)
    requires Ready(s2, f2) && specs2 != [] && EachSucceeds(o2, s2, specs2)
    requires specs1[|specs1| - 1] == specs2[|specs2| - 1] && SameCharts(o1, o2, specs1[|specs1| - 1])
    ensures var last := specs1[|specs1| - 1];
      var b1 := Deploys(o1, s1, specs1[..|specs1| - 1]).world.releases;
      var b2 := Deploys(o2, s2, specs2[..|specs2| - 1]).world.releases;
      Project(Deploys(o1, s1, specs1).world.releases, Names(last.components)) ==
      Project(Deploys(o2, s2, specs2).world.releases, Names(last.components)) <==>
      forall c | c in last.components ::
        Pinned(o1, last, c) || (Matches(last, c, Find(b1, c.name)) <==> Matches(last, c, Find(b2, c.name)))
  {
    var last := specs1[|specs1| - 1];
    var t1, t2 := Deploys(o1, s1, specs1[..|specs1| - 1]), Deploys(o2, s2, specs2[..|specs2| - 1]);
    DeploysLastPass(o1, s1, specs1, f1);
    DeploysLastPass(o2, s2, specs2, f2);
    LastPassesAgreeIff(o1, Step(o1, t1, EditHelmApp(last)), f1, o2, Step(o2, t2, EditHelmApp(last)), f2, last);
  }

  /** With every chart of the last spec pinned the path never matters. */
  lemma PathIndependence(o1: Oracle, s1: State, specs1: seq<Spec>, f1: set<string>,
                         o2: Oracle, s2: State, specs2: seq<Spec>, f2: set<string>)
    requires Ready(s1, f1) && specs1 != [] && EachSucceeds(o1, s1, specs1)
    requires Ready(s2, f2) && specs2 != [] && EachSucceeds(o2, s2, specs2)
    requires specs1[|specs1| - 1] == specs2[|specs2| - 1]
    requires AllPinned(o1, specs1[|specs1| - 1]) && AllPinned(o2, specs2[|specs2| - 1])
    ensures var names := Names(specs1[|specs1| - 1].components);
      Project(Deploys(o1, s1, specs1).world.releases, names) == Project(Deploys(o2, s2, specs2).world.releases, names)
  {
    PathIndependenceIff(o1, s1, specs1, f1, o2, s2, specs2, f2);
  }

  /** A history leaves what installing its last spec alone would, into a cluster that has none of its
      releases, exactly if each component is pinned or did not match before the last step. */
  lemma FreshInstallIff(o: Oracle, s: State, specs: seq<Spec>, foreign: set<string>,
                        o2: Oracle, bare: State, f2: set<string>)
    requires Ready(s, foreign) && specs != [] && EachSucceeds(o, s, specs)
    requires var last := specs[|specs| - 1];
      && Ready(bare, f2) && EachSucceeds(o2, bare, [last]) && SameCharts(o, o2, last)
      && bare.world.releases.Keys !! Names(last.components)
    ensures var last := specs[|specs| - 1];
      var before := Deploys(o, s, specs[..|specs| - 1]).world.releases;
      Project(Deploys(o, s, specs).world.releases, Names(last.components)) ==
      Project(DeployNext(o2, bare, last).world.releases, Names(last.components)) <==>
      forall c | c in last.components :: Pinned(o, last, c) || !Matches(last, c, Find(before, c.name))
  {
    var last := specs[|specs| - 1];
    assert [last][..0] == [] && Deploys(o2, bare, []) == bare;
    assert Deploys(o2, bare, [last]) == DeployNext(o2, bare, last);
    PathIndependenceIff(o, s, specs, foreign, o2, bare, [last], f2);
    forall c | c in last.components ensures Find(bare.world.releases, c.name).None? {
      assert c.name in Names(last.components);
    }
  }

  // ---- Arbitrary runs ----

  /** Two disciplined runs of both controllers and their users, from clusters holding only foreign
      releases and with any failures on the way, that both end in a successful pass over the same spec:
      each leaves the names of that spec and nothing else of its own, and they agree on the releases
      exactly if each component is pinned, or matched before the last pass of both or of neither. */
  lemma RunsAgreeIff(o1: Oracle, w1: World, run1: seq<Action>, o2: Oracle, w2: World, run2: seq<Action>, spec: Spec)
    requires Disciplined(o1, State(None, None, w1), run1, w1.releases.Keys)
    requires Disciplined(o2, State(None, None, w2), run2, w2.releases.Keys)
    requires var s1, s2 := Run(o1, State(None, None, w1), run1), Run(o2, State(None, None, w2), run2);
      && Live(s1) && Live(s2) && s1.app.value.spec == s2.app.value.spec == spec && WellNamed(spec)
      && Succeeds(o1, s1) && Succeeds(o2, s2) && SameCharts(o1, o2, spec)
    ensures var s1, s2 := Run(o1, State(None, None, w1), run1), Run(o2, State(None, None, w2), run2);
      var r1, r2 := Reconcile(o1, s1).1.world.releases, Reconcile(o2, s2).1.world.releases;
      && r1.Keys - w1.releases.Keys == Names(spec.components) - w1.releases.Keys
      && r2.Keys - w2.releases.Keys == Names(spec.components) - w2.releases.Keys
      && (Project(r1, Names(spec.components)) == Project(r2, Names(spec.components)) <==>
          forall c | c in spec.components ::
            Pinned(o1, spec, c) ||
            (Matches(spec, c, Find(s1.world.releases, c.name)) <==> Matches(spec, c, Find(s2.world.releases, c.name))))
  {
    var s1, s2 := Run(o1, State(None, None, w1), run1), Run(o2, State(None, None, w2), run2);
    RunsKeepInvariant(o1, State(None, None, w1), run1, w1.releases.Keys);
    RunsKeepInvariant(o2, State(None, None, w2), run2, w2.releases.Keys);
    SuccessKeys(o1, s1, w1.releases.Keys);
    SuccessKeys(o2, s2, w2.releases.Keys);
    LastPassesAgreeIff(o1, s1, w1.releases.Keys, o2, s2, w2.releases.Keys, spec);
  }

  // ---- How many passes it takes ----

  lemma FailureCounts(o: Oracle, from: nat, upto: nat, k: nat)
    requires from <= k < upto && !o.replies(k).Ok?
    ensures Failures(o, from, upto) >= 1
  {
    FailuresSplit(o, from, k, upto);
    FailuresSplit(o, k, k + 1, upto);
    FailuresStep(o, k, k + 1);
  }

  /** Each component's release can still come to match, or does already. */
  ghost predicate Reachable(o: Oracle, s: State)
    requires s.app.Some?
  {
    var spec := s.app.value.spec;
    forall c | c in spec.components :: Pinned(o, spec, c) || Matches(spec, c, Find(s.world.releases, c.name))
  }

  /** A pass, whatever fails, keeps what it could still reach and what it could not. */
  lemma PassKeepsReachable(o: Oracle, s: State)
    requires Live(s) && Distinct(s.app.value.spec.components)
    ensures var s' := Reconcile(o, s).1;
      && Live(s') && s'.app.value.spec == s.app.value.spec
      && (Reachable(o, s') <==> Reachable(o, s))
      && (AllMatch(s.world.releases, s.app.value.spec) ==> AllMatch(s'.world.releases, s.app.value.spec))
  {
    PassStaysLive(o, s);
    forall c | c in s.app.value.spec.components
      ensures Advanced(o, s.app.value.spec, c, Find(s.world.releases, c.name),
                       Find(Reconcile(o, s).1.world.releases, c.name))
    {
      PassAdvances(o, s, c);
    }
  }

  /** A store that realizes the spec is kept that way by a pass, whatever fails. */
  lemma PassKeepsRealized(o: Oracle, s: State, foreign: set<string>)
    requires Live(s) && Distinct(s.app.value.spec.components) && Realizes(s.world.releases, s.app.value.spec, foreign)
    ensures var s' := Reconcile(o, s).1;
      && Live(s') && s'.app.value.spec == s.app.value.spec
      && Realizes(s'.world.releases, s.app.value.spec, foreign)
  {
    PassKeepsReachable(o, s);
    PassUnfolded(o, s);
    LivePass(o, Prepared(o, s));
    var s', names := Reconcile(o, s).1, Names(s.app.value.spec.components);
    forall n | n in s'.world.releases && n !in foreign ensures n in names {
      assert n in s.world.releases ==> n in s.world.releases.Keys - foreign;
    }
    forall n | n in names ensures n in s'.world.releases {
      var c :| c in s.app.value.spec.components && c.name == n;
      assert Matches(s.app.value.spec, c, Find(s'.world.releases, n));
    }
  }

  lemma {:induction false} RealizedStays(o: Oracle, s: State, foreign: set<string>, n: nat)
    requires Live(s) && Distinct(s.app.value.spec.components) && Realizes(s.world.releases, s.app.value.spec, foreign)
    ensures Realizes(Repeat(o, s, n).world.releases, s.app.value.spec, foreign)
    decreases n
  {
    if n > 0 {
      PassKeepsRealized(o, s, foreign);
      RealizedStays(o, Reconcile(o, s).1, foreign, n - 1);
    }
  }

  /** Between two worlds at least n calls have failed. */
  ghost predicate Cost(o: Oracle, before: World, after: World, n: nat) {
    |before.trace| <= |after.trace| && Failures(o, |before.trace|, |after.trace|) >= n
  }

  lemma CostAdds(o: Oracle, a: World, b: World, c: World, m: nat, n: nat)
    requires Cost(o, a, b, m) && Cost(o, b, c, n)
    ensures Cost(o, a, c, m + n)
  {
    FailuresSplit(o, |a.trace|, |b.trace|, |c.trace|);
  }

  /** Each pass either succeeds or costs a failed call. */
  lemma LivePassCost(o: Oracle, s: State)
    requires Live(s) && !Succeeds(o, s)
    ensures Cost(o, s.world, Reconcile(o, s).1.world, 1)
  {
    PassStaysLive(o, s);
    var k: nat :| |s.world.trace| <= k < |Reconcile(o, s).1.world.trace| && !o.replies(k).Ok?;
    FailureCounts(o, |s.world.trace|, |Reconcile(o, s).1.world.trace|, k);
  }

  /** What every pass over an unchanged spec keeps while it can still realize it. */
  ghost predicate Chases(o: Oracle, s: State, spec: Spec, foreign: set<string>) {
    Live(s) && s.app.value.spec == spec && WellNamed(spec) && Tracked(s, foreign) && Reachable(o, s)
  }

  /** One pass realizes the spec or costs a failed call. */
  lemma PassProgress(o: Oracle, s: State, spec: Spec, foreign: set<string>)
    requires Chases(o, s, spec, foreign)
    ensures var s' := Reconcile(o, s).1;
      && Chases(o, s', spec, foreign)
      && (Realizes(s'.world.releases, spec, foreign) || Cost(o, s.world, s'.world, 1))
  {
    PassKeepsReachable(o, s);
    HelmAppPassTracks(o, s, foreign);
    if Succeeds(o, s) { SuccessRealizesIff(o, s, foreign); } else { LivePassCost(o, s); }
  }

  lemma ChasedStays(o: Oracle, s: State, spec: Spec, foreign: set<string>, n: nat)
    requires Chases(o, s, spec, foreign) && Realizes(s.world.releases, spec, foreign)
    ensures Realizes(Repeat(o, s, n).world.releases, spec, foreign)
  {
    RealizedStays(o, s, foreign, n);
  }

  /** n passes over an unchanged spec that do not leave the store realizing it meet n failed calls. */
  lemma {:induction false} RepeatCosts(o: Oracle, s: State, spec: Spec, foreign: set<string>, n: nat)
    requires Chases(o, s, spec, foreign) && !Realizes(Repeat(o, s, n).world.releases, spec, foreign)
    ensures Cost(o, s.world, Repeat(o, s, n).world, n)
    decreases n
  {
    if n > 0 {
      var s1 := Reconcile(o, s).1;
      PassProgress(o, s, spec, foreign);
      if Realizes(s1.world.releases, spec, foreign) {
        ChasedStays(o, s1, spec, foreign, n - 1);
      } else {
        RepeatCosts(o, s1, spec, foreign, n - 1);
        CostAdds(o, s.world, s1.world, Repeat(o, s1, n - 1).world, 1, n - 1);
      }
    }
  }

  lemma {:induction false} UnreachableStays(o: Oracle, s: State, n: nat)
    requires Live(s) && Distinct(s.app.value.spec.components) && !Reachable(o, s)
    ensures !AllMatch(Repeat(o, s, n).world.releases, s.app.value.spec)
    decreases n
  {
    if n > 0 {
      PassKeepsReachable(o, s);
      UnreachableStays(o, Reconcile(o, s).1, n - 1);
    }
  }

  /** When at most F more calls fail, F + 1 passes over an unchanged spec leave exactly what it asks for,
      and all later ones keep it, if each component is pinned or matches already; and otherwise no number
      of passes ever does. */
  lemma ConvergesIff(o: Oracle, s: State, foreign: set<string>, failures: nat)
    requires Live(s) && WellNamed(s.app.value.spec) && Tracked(s, foreign) && FailsAtMost(o, s.world, failures)
    ensures Reachable(o, s) <==> Realizes(Repeat(o, s, failures + 1).world.releases, s.app.value.spec, foreign)
    ensures Reachable(o, s) <==>
      forall n: nat | n > failures :: Realizes(Repeat(o, s, n).world.releases, s.app.value.spec, foreign)
    ensures Reachable(o, s) <==> exists n: nat :: Realizes(Repeat(o, s, n).world.releases, s.app.value.spec, foreign)
  {
    if Reachable(o, s) {
      forall n: nat | n > failures ensures Realizes(Repeat(o, s, n).world.releases, s.app.value.spec, foreign) {
        if !Realizes(Repeat(o, s, n).world.releases, s.app.value.spec, foreign) {
          RepeatCosts(o, s, s.app.value.spec, foreign, n);
        }
      }
    } else {
      forall n: nat ensures !Realizes(Repeat(o, s, n).world.releases, s.app.value.spec, foreign) {
        UnreachableStays(o, s, n);
      }
      assert failures + 1 > failures;
    }
  }
}
