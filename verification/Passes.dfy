/** What one pass of the HelmApp reconciler does to the release store and the stored object. */
module Passes {
  import opened Prelude
  import opened Types
  import opened Helm
  import opened HelmApp
  import opened Effects
  import opened Removal

  // ---- A live object ----

  /** Where a live pass stands before its status write. */
  datatype LiveRun = LiveRun(start: World, statuses: seq<ComponentStatus>, middle: World,
                             retained: seq<ComponentStatus>, end: World)

  function RecordedList(app: App): seq<ComponentStatus> {
    if app.status.None? then [] else app.status.value.components
  }

  predicate CannotStart(app: App) {
    app.spec.repo.None? && app.spec.components != []
  }

  function RunLive(o: Oracle, app: App, w: World): LiveRun
    requires !CannotStart(app)
  {
    var start := OpenHelm(o, w).1;
    var (statuses, middle) := ReconcileComponents(o, app.spec, app.spec.components, start);
    var (retained, end) := Sweep(o, Names(app.spec.components), RecordedList(app), middle);
    LiveRun(start, statuses, middle, retained, end)
  }

  lemma LiveUnfolded(o: Oracle, s: State)
    requires s.app.Some? && OpenHelm(o, s.world).0 && !CannotStart(s.app.value)
    ensures var app := s.app.value;
      var run := RunLive(o, app, s.world);
      var all := run.statuses + run.retained;
      var phase := OverallPhase(app.deleting, all);
      var (written, s') := WriteStatus(o, s.(world := run.end), app, Status(phase, all));
      ReconcileLive(o, s) == (if !written then Error else if phase == FAILED then RequeueAfter else Done, s')
  {
  }

  lemma LiveRunEffect(o: Oracle, app: App, w: World)
    requires !CannotStart(app)
    ensures var run := RunLive(o, app, w);
      var desired := Names(app.spec.components);
      && w.trace <= run.start.trace <= run.middle.trace <= run.end.trace
      && run.start.releases == w.releases
      && Named(run.statuses, app.spec.components)
      && StatusNames(run.statuses) == desired
      && StatusNames(run.retained) <= Recorded(app) - desired - {""}
      && (forall t | t in run.retained :: t.status == FAILED_STATUS)
      && run.end.releases.Keys <= w.releases.Keys + (desired - {""})
      && run.end.releases.Keys * (Recorded(app) - desired - {""}) <= StatusNames(run.retained)
  {
    var run := RunLive(o, app, w);
    var cs := app.spec.components;
    ComponentsCalls(o, app.spec, cs, run.start);
    ComponentsFrame(o, app.spec, cs, run.start);
    SweepEffect(o, Names(cs), RecordedList(app), run.middle);
    assert StatusNames(RecordedList(app)) == Recorded(app);
    forall n | n in Names(cs) ensures n in StatusNames(run.statuses) {
      var c :| c in cs && c.name == n;
      var i :| 0 <= i < |cs| && cs[i] == c;
      assert run.statuses[i].name == n;
    }
    forall n | n in run.end.releases ensures n in w.releases || (n in Names(cs) && n != "") {
      assert Find(run.end.releases, n).Some?;
      assert Find(run.middle.releases, n).Some?;
      assert n == "" ==> Find(run.middle.releases, n) == Find(w.releases, n);
    }
  }

  /** The pass gets as far as its status write and the write takes effect. */
  predicate WritesStatus(o: Oracle, s: State)
    requires s.app.Some?
  {
    && OpenHelm(o, s.world).0 && !CannotStart(s.app.value)
    && Persisted(o.replies(|RunLive(o, s.app.value, s.world).end.trace|))
  }

  /** The names a live pass records are the spec's names in order, then the entries that survive:
      those whose name is not empty, not in the spec, and whose uninstall failed. */
  lemma StatusExact(o: Oracle, s: State)
    requires s.app.Some? && WritesStatus(o, s)
    ensures var app, cs := s.app.value, s.app.value.spec.components;
      var status := ReconcileLive(o, s).1.app.value.status;
      var run := RunLive(o, app, s.world);
      && status.Some? && |status.value.components| >= |cs|
      && Named(status.value.components[..|cs|], cs)
      && status.value.components[|cs|..] ==
           Survivors(RecordedList(app), SweepFails(o, Names(cs), RecordedList(app), run.middle))
      && status.value.phase == OverallPhase(app.deleting, status.value.components)
  {
    LiveUnfolded(o, s);
    var app := s.app.value;
    var run := RunLive(o, app, s.world);
    LiveRunEffect(o, app, s.world);
    SweepExact(o, Names(app.spec.components), RecordedList(app), run.middle);
    var all := run.statuses + run.retained;
    assert all[..|app.spec.components|] == run.statuses && all[|app.spec.components|..] == run.retained;
  }

  /** Every recorded entry is desired, nameless, retained under its name, or uninstalled. */
  lemma NothingForgotten(o: Oracle, app: App, w: World, entry: ComponentStatus)
    requires !CannotStart(app) && entry in RecordedList(app)
    ensures var run := RunLive(o, app, w);
      || entry.name in Names(app.spec.components)
      || entry.name == ""
      || entry.name in StatusNames(run.retained)
      || entry.name !in run.end.releases
  {
    LiveRunEffect(o, app, w);
    assert entry.name in Recorded(app);
  }

  /** What a live pass leaves in the store, and what it writes. */
  lemma LivePass(o: Oracle, s: State)
    requires s.app.Some?
    ensures var (outcome, s') := ReconcileLive(o, s);
      var app := s.app.value;
      && s.world.trace <= s'.world.trace && s'.iop == s.iop && s'.app.Some?
      && s'.app.value == app.(status := s'.app.value.status)
      && s'.world.releases.Keys <= s.world.releases.Keys + (Names(app.spec.components) - {""})
      && (!WritesStatus(o, s) ==> s'.app == s.app)
      && (outcome.Done? || outcome.RequeueAfter? ==> WritesStatus(o, s))
      && (WritesStatus(o, s) ==>
            && s'.app.value.status.Some?
            && Names(app.spec.components) <= Recorded(s'.app.value)
            && s'.world.releases.Keys * (Recorded(app) - {""}) <= Recorded(s'.app.value))
  {
    var app := s.app.value;
    if OpenHelm(o, s.world).0 && !CannotStart(app) {
      LiveUnfolded(o, s);
      LiveRunEffect(o, app, s.world);
      var run := RunLive(o, app, s.world);
      StatusNamesConcat(run.statuses, run.retained);
    }
  }

  lemma StatusNamesConcat(a: seq<ComponentStatus>, b: seq<ComponentStatus>)
    ensures StatusNames(a + b) == StatusNames(a) + StatusNames(b)
  {
  }

  // ---- A deleted object ----

  /** What a deletion pass leaves in the store, and when it lets the object go. */
  lemma DeletePass(o: Oracle, s: State)
    requires s.app.Some?
    ensures var (outcome, s') := ReconcileDelete(o, s);
      var app := s.app.value;
      && s.world.trace <= s'.world.trace && s'.iop == s.iop
      && Shrinks(s.world.releases, s'.world.releases, Recorded(app) - {""})
      && s'.world.releases.Keys <= s.world.releases.Keys
      && (s'.app.Some? ==>
            && s'.app.value == app.(status := s'.app.value.status)
            && s'.app.value.status.Some? == app.status.Some?
            && s'.world.releases.Keys * (Recorded(app) - {""}) <= Recorded(s'.app.value))
      && (s'.app.None? ==> s'.world.releases.Keys * (Recorded(app) - {""}) == {})
  {
    var app := s.app.value;
    var (ready, w0) := OpenHelm(o, s.world);
    if ready && app.status.Some? {
      var list := app.status.value.components;
      var (kept, w1) := Teardown(o, list, w0);
      TeardownEffect(o, list, w0);
      assert kept == [] ==> StatusNames(kept) == {};
      forall n | n in w1.releases ensures n in w0.releases { assert Find(w1.releases, n).Some?; }
    }
  }

  // ---- Either kind of pass ----

  /** The state a live or deletion pass works on, after the read and the finalizer. */
  function Prepared(o: Oracle, s: State): State
    requires s.app.Some?
  {
    var w := Ask(o, s.world, GetApp).1;
    if s.app.value.deleting || s.app.value.finalizer then s.(world := w)
    else State(s.iop, Some(s.app.value.(finalizer := true)), Ask(o, w, UpdateApp).1)
  }

  /** A pass either stops before doing anything, or is a live or deletion pass on the prepared state. */
  lemma PassUnfolded(o: Oracle, s: State)
    requires s.app.Some?
    ensures var (outcome, s') := Reconcile(o, s);
      var p := Prepared(o, s);
      || (outcome == Error && s'.world.releases == s.world.releases && s'.iop == s.iop
          && |s.world.trace| < |s'.world.trace| <= |p.world.trace| && s.world.trace <= s'.world.trace
          && (s'.app == s.app || s'.app == p.app)
          && !o.replies(|s'.world.trace| - 1).Ok?)
      || ((outcome, s') == if s.app.value.deleting then ReconcileDelete(o, p) else ReconcileLive(o, p))
  {
  }

  /** A release named neither in the spec nor in the status is out of reach of every pass. */
  lemma OutOfReach(o: Oracle, s: State, n: string)
    requires s.app.Some? && n !in Names(s.app.value.spec.components) + Recorded(s.app.value)
    ensures var s' := Reconcile(o, s).1;
      && Find(s'.world.releases, n) == Find(s.world.releases, n)
      && (s'.app.Some? ==> s'.app.value.spec == s.app.value.spec && n !in Recorded(s'.app.value))
  {
    PassUnfolded(o, s);
    var p := Prepared(o, s);
    var app := p.app.value;
    if s.app.value.deleting {
      DeletePass(o, p);
      DeleteRecordsNoMore(o, p);
    } else {
      LivePass(o, p);
      if OpenHelm(o, p.world).0 && !CannotStart(app) {
        LiveUnfolded(o, p);
        LiveRunEffect(o, app, p.world);
        var run := RunLive(o, app, p.world);
        StatusNamesConcat(run.statuses, run.retained);
        ComponentsFrame(o, app.spec, app.spec.components, run.start);
        SweepEffect(o, Names(app.spec.components), RecordedList(app), run.middle);
      }
    }
  }

  lemma DeleteRecordsNoMore(o: Oracle, s: State)
    requires s.app.Some?
    ensures var s' := ReconcileDelete(o, s).1;
      s'.app.Some? ==> Recorded(s'.app.value) <= Recorded(s.app.value)
  {
    var app := s.app.value;
    var (ready, w0) := OpenHelm(o, s.world);
    if ready && app.status.Some? {
      TeardownEffect(o, app.status.value.components, w0);
    }
  }

  /** The new calls uninstall nothing but the given names. */
  ghost predicate UninstallsWithin(before: World, after: World, names: set<string>) {
    && before.trace <= after.trace
    && forall i | |before.trace| <= i < |after.trace| && after.trace[i].Uninstall? :: after.trace[i].name in names
  }

  lemma UninstallsCompose(a: World, b: World, c: World, names: set<string>)
    requires UninstallsWithin(a, b, names) && UninstallsWithin(b, c, names)
    ensures UninstallsWithin(a, c, names)
  {
  }

  lemma LiveUninstalls(o: Oracle, s: State)
    requires s.app.Some?
    ensures UninstallsWithin(s.world, ReconcileLive(o, s).1.world,
              Recorded(s.app.value) - Names(s.app.value.spec.components) - {""})
  {
    var app := s.app.value;
    var names := Recorded(app) - Names(app.spec.components) - {""};
    var s' := ReconcileLive(o, s).1;
    if OpenHelm(o, s.world).0 && !CannotStart(app) {
      LiveUnfolded(o, s);
      var run := RunLive(o, app, s.world);
      ComponentsCalls(o, app.spec, app.spec.components, run.start);
      SweepEffect(o, Names(app.spec.components), RecordedList(app), run.middle);
      UninstallsCompose(s.world, run.start, run.middle, names);
      UninstallsCompose(s.world, run.middle, run.end, names);
      UninstallsCompose(s.world, run.end, s'.world, names);
    }
  }

  /** No pass uninstalls a release that a live object's spec names. */
  lemma NeverUninstallsDesired(o: Oracle, s: State)
    requires s.app.Some? && !s.app.value.deleting
    ensures UninstallsWithin(s.world, Reconcile(o, s).1.world,
              Recorded(s.app.value) - Names(s.app.value.spec.components) - {""})
  {
    PassUnfolded(o, s);
    var p := Prepared(o, s);
    LiveUninstalls(o, p);
    assert UninstallsWithin(s.world, p.world, {});
  }

  lemma LiveQuiescent(o: Oracle, s: State, n: string)
    requires s.app.Some? && ReconcileLive(o, s).0 == Done && !s.app.value.deleting
    requires n in Recorded(s.app.value) && n !in Names(s.app.value.spec.components) && n != ""
    ensures n !in ReconcileLive(o, s).1.world.releases
  {
    var app := s.app.value;
    LiveUnfolded(o, s);
    LiveRunEffect(o, app, s.world);
    var run := RunLive(o, app, s.world);
    assert forall t | t in run.retained :: t in run.statuses + run.retained;
    assert StatusNames(run.retained) == {};
    assert n in run.end.releases ==> n in run.end.releases.Keys * (Recorded(app) - Names(app.spec.components) - {""});
  }

  /** A live pass that asks for no retry leaves nothing installed that it has dropped from the record. */
  lemma Quiescent(o: Oracle, s: State, n: string)
    requires s.app.Some? && !s.app.value.deleting && Reconcile(o, s).0 == Done
    requires n in Recorded(s.app.value) && n !in Names(s.app.value.spec.components) && n != ""
    ensures n !in Reconcile(o, s).1.world.releases
  {
    PassUnfolded(o, s);
    LiveQuiescent(o, Prepared(o, s), n);
  }
}
