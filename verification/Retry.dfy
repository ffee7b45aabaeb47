/** Which failures a pass reports, which it asks to retry, and which it says nothing about. */
module Retry {
  import opened Prelude
  import opened Types
  import opened HelmApp
  import opened Effects
  import opened Removal
  import opened Passes
  import opened Protocol
  import opened Convergence

  // ---- One component ----

  /** The release matches and is recorded as failed, or does not match and Helm records the attempt to
      deploy it as failed. */
  predicate ReportsFailed(o: Oracle, spec: Spec, c: Component, w: World) {
    var release := Find(w.releases, c.name);
    && Examined(o, c, w)
    && if Matches(spec, c, release) then release.value.status == FAILED_STATUS
       else o.replies(|w.trace| + 3) == Err(true)
  }

  /** Nothing is known of the release after the attempt: it was not examined, or the attempt to deploy it
      left no record. */
  predicate ReportsNothing(o: Oracle, spec: Spec, c: Component, w: World) {
    || !Examined(o, c, w)
    || (!Matches(spec, c, Find(w.releases, c.name)) && o.replies(|w.trace| + 3) == Err(false))
  }

  /** A component is reported as failed exactly in those cases. It is in error, but reported with nothing
      of its release, in the other ones; and then the store is as before. */
  lemma ReportsFailedIff(o: Oracle, spec: Spec, c: Component, w: World)
    requires spec.repo.Some?
    ensures var run := ReconcileComponent(o, spec, c, w);
      && (run.status.status == FAILED_STATUS <==> ReportsFailed(o, spec, c, w))
      && (run.status == ComponentStatus(c.name, UNKNOWN_STATUS, None, []) <==> ReportsNothing(o, spec, c, w))
      && (ReportsNothing(o, spec, c, w) ==> run.failed && run.world.releases == w.releases)
      && (run.failed <==>
            (ReportsNothing(o, spec, c, w) ||
             (ReportsFailed(o, spec, c, w) && !Matches(spec, c, Find(w.releases, c.name)))))
  {
    assert |FAILED_STATUS| != |UNKNOWN_STATUS| && |FAILED_STATUS| != |DEPLOYED|;
  }

  // ---- The pass ----

  /** The world in which the loop reaches component i. */
  function Reached(o: Oracle, spec: Spec, cs: seq<Component>, w: World, i: nat): World
    requires (spec.repo.Some? || cs == []) && i <= |cs|
  {
    ReconcileComponents(o, spec, cs[..i], w).1
  }

  lemma {:induction false} ComponentsStatus(o: Oracle, spec: Spec, cs: seq<Component>, w: World, i: nat)
    requires spec.repo.Some? && i < |cs|
    ensures var statuses := ReconcileComponents(o, spec, cs, w).0;
      && |statuses| == |cs|
      && statuses[i] == ReconcileComponent(o, spec, cs[i], Reached(o, spec, cs, w, i)).status
    decreases cs
  {
    ComponentsCalls(o, spec, cs, w);
    if i > 0 {
      ComponentsStatus(o, spec, cs[1..], ReconcileComponent(o, spec, cs[0], w).world, i - 1);
      assert cs[..i][1..] == cs[1..][..i - 1];
    }
  }

  /** The pass reports its status as written. */
  predicate ReportsStatus(o: Oracle, s: State)
    requires s.app.Some?
  {
    && OpenHelm(o, s.world).0 && !CannotStart(s.app.value)
    && o.replies(|RunLive(o, s.app.value, s.world).end.trace|).Ok?
  }

  /** Some component is reported as failed, or some uninstall of a dropped component fails. */
  ghost predicate Trouble(o: Oracle, s: State)
    requires s.app.Some? && !CannotStart(s.app.value)
  {
    var spec, run := s.app.value.spec, RunLive(o, s.app.value, s.world);
    || (exists i: nat :: i < |spec.components|
          && ReportsFailed(o, spec, spec.components[i], Reached(o, spec, spec.components, run.start, i)))
    || (exists f :: f in SweepFails(o, Names(spec.components), RecordedList(s.app.value), run.middle) && f)
  }

  lemma SomeComponentFailed(o: Oracle, s: State)
    requires s.app.Some? && !CannotStart(s.app.value)
    ensures var spec, run := s.app.value.spec, RunLive(o, s.app.value, s.world);
      (exists t :: t in run.statuses && t.status == FAILED_STATUS) <==>
      exists i: nat :: i < |spec.components|
          && ReportsFailed(o, spec, spec.components[i], Reached(o, spec, spec.components, run.start, i))
  {
    var spec, cs, run := s.app.value.spec, s.app.value.spec.components, RunLive(o, s.app.value, s.world);
    ComponentsCalls(o, spec, cs, run.start);
    forall i: nat | i < |cs|
      ensures run.statuses[i].status == FAILED_STATUS <==>
        ReportsFailed(o, spec, cs[i], Reached(o, spec, cs, run.start, i))
    {
      ComponentsStatus(o, spec, cs, run.start, i);
      ReportsFailedIff(o, spec, cs[i], Reached(o, spec, cs, run.start, i));
    }
    if t :| t in run.statuses && t.status == FAILED_STATUS {
      var i: nat :| i < |run.statuses| && run.statuses[i] == t;
    }
    if i: nat :| i < |cs| && ReportsFailed(o, spec, cs[i], Reached(o, spec, cs, run.start, i)) {
      assert run.statuses[i] in run.statuses;
    }
  }

  lemma SomethingRetainedIff(o: Oracle, s: State)
    requires s.app.Some? && !CannotStart(s.app.value)
    ensures var run := RunLive(o, s.app.value, s.world);
      && (run.retained != [] <==>
          true in SweepFails(o, Names(s.app.value.spec.components), RecordedList(s.app.value), run.middle))
      && (run.retained != [] <==> exists t :: t in run.retained && t.status == FAILED_STATUS)
  {
    var app, run := s.app.value, RunLive(o, s.app.value, s.world);
    SweepExact(o, Names(app.spec.components), RecordedList(app), run.middle);
    SweepEffect(o, Names(app.spec.components), RecordedList(app), run.middle);
    SurvivorsEmptyIff(RecordedList(app), SweepFails(o, Names(app.spec.components), RecordedList(app), run.middle));
    if run.retained != [] { assert run.retained[0] in run.retained; }
  }

  lemma LiveRetryIff(o: Oracle, s: State)
    requires Live(s)
    ensures var outcome := ReconcileLive(o, s).0;
      && (outcome == RequeueAfter <==> ReportsStatus(o, s) && Trouble(o, s))
      && (outcome == Done <==> ReportsStatus(o, s) && !Trouble(o, s))
  {
    if OpenHelm(o, s.world).0 && !CannotStart(s.app.value) {
      var run := RunLive(o, s.app.value, s.world);
      LiveUnfolded(o, s);
      SomeComponentFailed(o, s);
      SomethingRetainedIff(o, s);
      assert (exists t :: t in run.statuses + run.retained && t.status == FAILED_STATUS) <==> Trouble(o, s);
    }
  }

  /** The pass gets past its read and its finalizer. */
  predicate Starts(o: Oracle, s: State)
    requires s.app.Some?
  {
    o.replies(|s.world.trace|).Ok? && (s.app.value.finalizer || o.replies(|s.world.trace| + 1).Ok?)
  }

  /** A pass over a live object asks for a retry exactly when it gets its status written and some component
      is reported as failed or some uninstall fails; it ends quietly when neither is the case. */
  lemma RetryIff(o: Oracle, s: State)
    requires Live(s)
    ensures var outcome, p := Reconcile(o, s).0, Prepared(o, s);
      && (outcome == RequeueAfter <==> Starts(o, s) && ReportsStatus(o, p) && Trouble(o, p))
      && (outcome == Done <==> Starts(o, s) && ReportsStatus(o, p) && !Trouble(o, p))
  {
    LiveRetryIff(o, Prepared(o, s));
  }

  // ---- A release recorded as failed ----

  /** Once a release matches and is recorded as failed, every later pass that no call interrupts asks for
      a retry, and none ever deploys it again. */
  lemma FailedForGood(o: Oracle, s: State, i: nat, n: nat)
    requires Live(s) && WellNamed(s.app.value.spec) && i < |s.app.value.spec.components|
    requires var c := s.app.value.spec.components[i];
      && Matches(s.app.value.spec, c, Find(s.world.releases, c.name))
      && s.world.releases[c.name].status == FAILED_STATUS
    ensures var c, later := s.app.value.spec.components[i], Repeat(o, s, n);
      && Find(later.world.releases, c.name) == Find(s.world.releases, c.name)
      && Live(later) && later.app.value.spec == s.app.value.spec && |s.world.trace| <= |later.world.trace|
      && (Succeeds(o, later) ==> Reconcile(o, later).0 == RequeueAfter)
  {
    var c := s.app.value.spec.components[i];
    var later := Repeat(o, s, n);
    MatchingReleaseStays(o, s, c, n);
    RepeatStaysLive(o, s, n);
    if Succeeds(o, later) {
      SuccessfulPass(o, later);
      SuccessMatches(o, later, i);
      var t := Reconcile(o, later).1.app.value.status.value.components;
      assert t[i] in t && t[i].status == FAILED_STATUS;
      FailedPhaseRetries(o, later);
    }
  }

  lemma {:induction false} RepeatStaysLive(o: Oracle, s: State, n: nat)
    requires Live(s)
    ensures var s' := Repeat(o, s, n);
      Live(s') && s'.app.value.spec == s.app.value.spec && |s.world.trace| <= |s'.world.trace|
    decreases n
  {
    if n > 0 {
      PassStaysLive(o, s);
      RepeatStaysLive(o, Reconcile(o, s).1, n - 1);
    }
  }

  lemma FailedPhaseRetries(o: Oracle, s: State)
    requires Live(s) && WellNamed(s.app.value.spec) && Succeeds(o, s)
    requires var status := Reconcile(o, s).1.app.value.status;
      status.Some? && exists t :: t in status.value.components && t.status == FAILED_STATUS
    ensures Reconcile(o, s).0 == RequeueAfter
  {
    SuccessUnfolded(o, s);
    LiveUnfolded(o, Prepared(o, s));
    SuccessfulPass(o, s);
    var t :| t in Reconcile(o, s).1.app.value.status.value.components && t.status == FAILED_STATUS;
  }
}
