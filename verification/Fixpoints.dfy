/** When repeated passes stop changing the release store, also where components share a name. */
module Fixpoints {
  import opened Prelude
  import opened Types
  import opened HelmApp
  import opened Effects
  import opened Removal
  import opened Passes
  import opened Protocol
  import opened Convergence

  /** Two components ask for the same version and the same effective values. */
  predicate SameRequest(spec: Spec, a: Component, b: Component) {
    a.version == b.version && EffectiveValues(spec, a) == EffectiveValues(spec, b)
  }

  /** Every component of the list that has c's name asks for what c asks for. */
  predicate Agree(spec: Spec, cs: seq<Component>, c: Component) {
    forall d | d in cs && d.name == c.name :: SameRequest(spec, c, d)
  }

  ghost predicate SomePinned(o: Oracle, spec: Spec, cs: seq<Component>, name: string) {
    exists d :: d in cs && d.name == name && Pinned(o, spec, d)
  }

  /** Components of one name agree, and one of them is pinned unless the release matches already. */
  ghost predicate Settles(o: Oracle, spec: Spec, releases: Releases) {
    forall c | c in spec.components && c.name != "" ::
      && Agree(spec, spec.components, c)
      && (Matches(spec, c, Find(releases, c.name)) || SomePinned(o, spec, spec.components, c.name))
  }

  // ---- The component loop, whatever names repeat ----

  lemma LoopSplit(o: Oracle, spec: Spec, cs: seq<Component>, w: World)
    requires spec.repo.Some? && cs != []
    ensures var w1 := ReconcileComponent(o, spec, cs[0], w).world;
      var w' := ReconcileComponents(o, spec, cs, w).1;
      && w' == ReconcileComponents(o, spec, cs[1..], w1).1
      && (AllOk(o, w, w') ==> AllOk(o, w, w1) && AllOk(o, w1, w'))
  {
    ComponentCalls(o, spec, cs[0], w);
    ComponentsCalls(o, spec, cs[1..], ReconcileComponent(o, spec, cs[0], w).world);
  }

  /** When nothing fails, a release stays as it is only if all components of its name match it, and
      otherwise gains revisions. */
  lemma {:induction false} LoopGrows(o: Oracle, spec: Spec, cs: seq<Component>, w: World, n: string)
    requires spec.repo.Some? && n != "" && AllOk(o, w, ReconcileComponents(o, spec, cs, w).1)
    ensures var before, after := Find(w.releases, n), Find(ReconcileComponents(o, spec, cs, w).1.releases, n);
      || Revision(after) > Revision(before)
      || (after == before && forall c | c in cs && c.name == n :: Matches(spec, c, before))
    decreases cs
  {
    if cs != [] {
      var w1 := ReconcileComponent(o, spec, cs[0], w).world;
      LoopSplit(o, spec, cs, w);
      LoopGrows(o, spec, cs[1..], w1, n);
      if cs[0].name == n {
        ComponentConverges(o, spec, cs[0], w);
      } else {
        ComponentEffect(o, spec, cs[0], w);
      }
    }
  }

  /** A release that every component of its name matches stays, whatever fails. */
  lemma {:induction false} LoopKeeps(o: Oracle, spec: Spec, cs: seq<Component>, w: World, n: string)
    requires spec.repo.Some?
    requires forall c | c in cs && c.name == n :: Matches(spec, c, Find(w.releases, n))
    ensures Find(ReconcileComponents(o, spec, cs, w).1.releases, n) == Find(w.releases, n)
    decreases cs
  {
    if cs != [] {
      ComponentEffect(o, spec, cs[0], w);
      LoopKeeps(o, spec, cs[1..], ReconcileComponent(o, spec, cs[0], w).world, n);
    }
  }

  /** Among components that agree, one whose chart is pinned makes the release match. */
  lemma {:induction false} LoopMatches(o: Oracle, spec: Spec, cs: seq<Component>, w: World, c: Component)
    requires spec.repo.Some? && c in cs && c.name != "" && Pinned(o, spec, c) && Agree(spec, cs, c)
    requires AllOk(o, w, ReconcileComponents(o, spec, cs, w).1)
    ensures Matches(spec, c, Find(ReconcileComponents(o, spec, cs, w).1.releases, c.name))
    decreases cs
  {
    var w1 := ReconcileComponent(o, spec, cs[0], w).world;
    LoopSplit(o, spec, cs, w);
    if c == cs[0] {
      ComponentConverges(o, spec, c, w);
      LoopKeeps(o, spec, cs[1..], w1, c.name);
    } else {
      LoopMatches(o, spec, cs[1..], w1, c);
    }
  }

  /** Among components that agree, none of them pinned, a release that does not match never will. */
  lemma {:induction false} LoopNeverMatches(o: Oracle, spec: Spec, cs: seq<Component>, w: World, c: Component)
    requires spec.repo.Some? && Agree(spec, cs, c) && !SomePinned(o, spec, cs, c.name)
    requires !Matches(spec, c, Find(w.releases, c.name))
    ensures !Matches(spec, c, Find(ReconcileComponents(o, spec, cs, w).1.releases, c.name))
    decreases cs
  {
    if cs != [] {
      var w1 := ReconcileComponent(o, spec, cs[0], w).world;
      ComponentEffect(o, spec, cs[0], w);
      assert cs[0] in cs;
      assert !SomePinned(o, spec, cs[1..], c.name) by {
        assert forall d | d in cs[1..] :: d in cs;
      }
      LoopNeverMatches(o, spec, cs[1..], w1, c);
    }
  }

  // ---- Settled stores ----

  lemma SameReleases(a: Releases, b: Releases)
    requires forall n :: Find(a, n) == Find(b, n)
    ensures a == b
  {
    forall n | n in a || n in b ensures n in a && n in b && a[n] == b[n] {
      assert Find(a, n) == Find(b, n);
    }
  }

  lemma PassKeeps(o: Oracle, s: State, n: string)
    requires Live(s) && n in Names(s.app.value.spec.components)
    requires n == "" || forall c | c in s.app.value.spec.components && c.name == n ::
               Matches(s.app.value.spec, c, Find(s.world.releases, n))
    ensures Find(Reconcile(o, s).1.world.releases, n) == Find(s.world.releases, n)
  {
    PassUnfolded(o, s);
    var p := Prepared(o, s);
    var app := p.app.value;
    LivePass(o, p);
    if OpenHelm(o, p.world).0 && !CannotStart(app) {
      var cs, run := app.spec.components, RunLive(o, app, p.world);
      LiveUnfolded(o, p);
      if n == "" { ComponentsFrame(o, app.spec, cs, run.start); } else { LoopKeeps(o, app.spec, cs, run.start, n); }
      SweepEffect(o, Names(cs), RecordedList(app), run.middle);
    }
  }

  /** Once everything matches and nothing else is recorded, a pass leaves the store alone whatever fails. */
  lemma SettledStore(o: Oracle, s: State)
    requires Live(s) && Recorded(s.app.value) <= Names(s.app.value.spec.components)
    requires forall c | c in s.app.value.spec.components && c.name != "" ::
               Matches(s.app.value.spec, c, Find(s.world.releases, c.name))
    ensures Reconcile(o, s).1.world.releases == s.world.releases
  {
    forall n ensures Find(Reconcile(o, s).1.world.releases, n) == Find(s.world.releases, n) {
      if n in Names(s.app.value.spec.components) { PassKeeps(o, s, n); } else { OutOfReach(o, s, n); }
    }
    SameReleases(Reconcile(o, s).1.world.releases, s.world.releases);
  }

  // ---- Two passes ----

  /** What a successful pass does to the releases its spec names, and what it records. */
  lemma SuccessLoop(o: Oracle, s: State) returns (start: World)
    requires Live(s) && !CannotStart(s.app.value) && Succeeds(o, s)
    ensures var spec, s' := s.app.value.spec, Reconcile(o, s).1;
      var middle := ReconcileComponents(o, spec, spec.components, start).1;
      && start.releases == s.world.releases && AllOk(o, start, middle)
      && (forall n | n in Names(spec.components) || n == "" ::
            Find(s'.world.releases, n) == Find(middle.releases, n))
      && Live(s') && s'.app.value.spec == spec && Recorded(s'.app.value) == Names(spec.components)
  {
    SuccessUnfolded(o, s);
    var app, p := s.app.value, Prepared(o, s);
    var run := RunLive(o, p.app.value, p.world);
    LiveRunEffect(o, p.app.value, p.world);
    SweepEffect(o, Names(app.spec.components), RecordedList(app), run.middle);
    assert run.statuses + run.retained == run.statuses;
    start := run.start;
  }

  /** A successful pass leaves the store alone exactly if every component matches. */
  lemma UnchangedIff(o: Oracle, s: State)
    requires Live(s) && !CannotStart(s.app.value) && Succeeds(o, s)
    requires Recorded(s.app.value) <= Names(s.app.value.spec.components)
    ensures var spec := s.app.value.spec;
      Reconcile(o, s).1.world.releases == s.world.releases <==>
      forall c | c in spec.components && c.name != "" :: Matches(spec, c, Find(s.world.releases, c.name))
  {
    var spec, cs, s' := s.app.value.spec, s.app.value.spec.components, Reconcile(o, s).1;
    var start := SuccessLoop(o, s);
    if s'.world.releases == s.world.releases {
      forall c | c in cs && c.name != "" ensures Matches(spec, c, Find(s.world.releases, c.name)) {
        assert c.name in Names(cs);
        LoopGrows(o, spec, cs, start, c.name);
      }
    }
    if forall c | c in cs && c.name != "" :: Matches(spec, c, Find(s.world.releases, c.name)) { SettledStore(o, s); }
  }

  lemma MatchesAfterIff(o: Oracle, s: State)
    requires Live(s) && !CannotStart(s.app.value) && Succeeds(o, s)
    ensures var spec := s.app.value.spec;
      (forall c | c in spec.components && c.name != "" ::
         Matches(spec, c, Find(Reconcile(o, s).1.world.releases, c.name))) <==>
      Settles(o, spec, s.world.releases)
  {
    var spec, cs, after := s.app.value.spec, s.app.value.spec.components, Reconcile(o, s).1.world.releases;
    var start := SuccessLoop(o, s);
    if forall c | c in cs && c.name != "" :: Matches(spec, c, Find(after, c.name)) {
      forall c | c in cs && c.name != ""
        ensures Agree(spec, cs, c)
        ensures Matches(spec, c, Find(s.world.releases, c.name)) || SomePinned(o, spec, cs, c.name)
      {
        assert c.name in Names(cs) && Matches(spec, c, Find(after, c.name));
        assert forall d | d in cs && d.name == c.name :: Matches(spec, d, Find(after, d.name));
        if !Matches(spec, c, Find(s.world.releases, c.name)) && !SomePinned(o, spec, cs, c.name) {
          LoopNeverMatches(o, spec, cs, start, c);
        }
      }
    }
    if Settles(o, spec, s.world.releases) {
      forall c | c in cs && c.name != "" ensures Matches(spec, c, Find(after, c.name)) {
        assert c.name in Names(cs) && Agree(spec, cs, c);
        if Matches(spec, c, Find(s.world.releases, c.name)) {
          LoopKeeps(o, spec, cs, start, c.name);
        } else {
          var d :| d in cs && d.name == c.name && Pinned(o, spec, d);
          LoopMatches(o, spec, cs, start, d);
        }
      }
    }
  }

  lemma SameStatus(o: Oracle, s: State)
    requires Live(s) && WellNamed(s.app.value.spec) && Succeeds(o, s)
    requires var s1 := Reconcile(o, s).1;
      Live(s1) && s1.app.value.spec == s.app.value.spec && Succeeds(o, s1)
      && Reconcile(o, s1).1.world.releases == s1.world.releases
    ensures Reconcile(o, Reconcile(o, s).1).1.app == Reconcile(o, s).1.app
  {
    var s1 := Reconcile(o, s).1;
    SuccessfulPass(o, s);
    SuccessfulPass(o, s1);
    assert s1.app.value.status.value.components == Reconcile(o, s1).1.app.value.status.value.components;
  }

  /** After one successful pass, over any spec, a second successful one leaves the store alone exactly if
      components of one name agree and one of each name is pinned unless its release matched before. With
      names that are distinct and not empty it then writes the same status. */
  lemma FixpointIff(o: Oracle, s: State)
    requires Live(s) && !CannotStart(s.app.value) && Succeeds(o, s)
    requires Succeeds(o, Reconcile(o, s).1)
    ensures var spec, s1 := s.app.value.spec, Reconcile(o, s).1;
      var s2 := Reconcile(o, s1).1;
      && (s2.world.releases == s1.world.releases <==> Settles(o, spec, s.world.releases))
      && (WellNamed(spec) && Settles(o, spec, s.world.releases) ==> s2.app == s1.app)
  {
    var s1 := Reconcile(o, s).1;
    var start := SuccessLoop(o, s);
    MatchesAfterIff(o, s);
    UnchangedIff(o, s1);
    if WellNamed(s.app.value.spec) && Settles(o, s.app.value.spec, s.world.releases) { SameStatus(o, s); }
  }

  /** With every chart pinned only agreement is left to ask for, with distinct names only the pins. */
  lemma SettlesIff(o: Oracle, spec: Spec, releases: Releases)
    requires "" !in Names(spec.components)
    ensures AllPinned(o, spec) ==>
      (Settles(o, spec, releases) <==>
       forall a, b | a in spec.components && b in spec.components && a.name == b.name :: SameRequest(spec, a, b))
    ensures Distinct(spec.components) ==>
      (Settles(o, spec, releases) <==>
       forall c | c in spec.components :: Pinned(o, spec, c) || Matches(spec, c, Find(releases, c.name)))
  {
    var cs := spec.components;
    assert forall c | c in cs :: c.name in Names(cs);
    if AllPinned(o, spec) {
      assert forall c | c in cs :: SomePinned(o, spec, cs, c.name);
      if Settles(o, spec, releases) {
        forall a, b | a in cs && b in cs && a.name == b.name ensures SameRequest(spec, a, b) {
          assert Agree(spec, cs, a);
        }
      }
    }
    if Distinct(cs) {
      forall c, d | c in cs && d in cs && c.name == d.name ensures c == d {
        var i :| 0 <= i < |cs| && cs[i] == c;
        var j :| 0 <= j < |cs| && cs[j] == d;
      }
      assert forall c | c in cs :: Agree(spec, cs, c) && (SomePinned(o, spec, cs, c.name) <==> Pinned(o, spec, c));
    }
  }

  /** Two components of one name that ask for different things give their release at least one more
      revision in every successful pass, for ever. */
  lemma {:induction false} DisagreementGrows(o: Oracle, s: State, a: Component, b: Component, n: nat)
    requires Live(s) && !CannotStart(s.app.value)
    requires a in s.app.value.spec.components && b in s.app.value.spec.components
    requires a.name == b.name != "" && !SameRequest(s.app.value.spec, a, b)
    requires forall k: nat | |s.world.trace| <= k :: o.replies(k).Ok?
    ensures Revision(Find(Repeat(o, s, n).world.releases, a.name)) >= Revision(Find(s.world.releases, a.name)) + n
    decreases n
  {
    if n > 0 {
      DisagreementOnce(o, s, a, b);
      DisagreementGrows(o, Reconcile(o, s).1, a, b, n - 1);
    }
  }

  lemma DisagreementOnce(o: Oracle, s: State, a: Component, b: Component)
    requires Live(s) && !CannotStart(s.app.value)
    requires a in s.app.value.spec.components && b in s.app.value.spec.components
    requires a.name == b.name != "" && !SameRequest(s.app.value.spec, a, b)
    requires forall k: nat | |s.world.trace| <= k :: o.replies(k).Ok?
    ensures var s' := Reconcile(o, s).1;
      && Live(s') && s'.app.value.spec == s.app.value.spec && |s.world.trace| <= |s'.world.trace|
      && Revision(Find(s'.world.releases, a.name)) > Revision(Find(s.world.releases, a.name))
  {
    var start := SuccessLoop(o, s);
    PassStaysLive(o, s);
    assert a.name in Names(s.app.value.spec.components);
    LoopGrows(o, s.app.value.spec, s.app.value.spec.components, start, a.name);
  }
}
