/** What each kind of pass returns, writes and calls, reply by reply. */
module Outcomes {
  import opened Prelude
  import opened Types
  import opened Helm
  import opened HelmApp
  import opened Removal
  import opened Passes
  import opened PhaseLaws
  import opened Convergence

  // ---- No object ----

  /** A pass that finds no HelmApp does nothing and is done, unless it cannot even look. */
  lemma GonePass(o: Oracle, s: State)
    requires s.app.None?
    ensures var (outcome, s') := Reconcile(o, s);
      && outcome == (if o.replies(|s.world.trace|).Ok? then Done else Error)
      && s' == s.(world := World(s.world.releases, s.world.trace + [GetApp]))
  {
  }

  // ---- A deleted object ----

  /** The object is read and a Helm client created. */
  predicate Opens(o: Oracle, w: World) {
    var n := |w.trace|;
    o.replies(n).Ok? && o.replies(n + 1).Ok? && o.replies(n + 2).Ok?
  }

  function Opened(w: World): World {
    World(w.releases, w.trace + [GetApp, NewConfig, InitHelm])
  }

  /** Where the teardown of a deletion pass ends, and which of its entries fail. */
  function TornDown(o: Oracle, s: State): World
    requires s.app.Some?
  {
    Teardown(o, RecordedList(s.app.value), Opened(s.world)).1
  }

  function TornDownFails(o: Oracle, s: State): seq<bool>
    requires s.app.Some?
  {
    TeardownFails(o, RecordedList(s.app.value), Opened(s.world))
  }

  lemma DeletionUnfolded(o: Oracle, s: State)
    requires s.app.Some? && s.app.value.deleting && s.app.value.status.Some? && Opens(o, s.world)
    ensures var list := RecordedList(s.app.value);
      var kept := Teardown(o, list, Opened(s.world)).0;
      && Reconcile(o, s) == ReconcileDelete(o, s.(world := World(s.world.releases, s.world.trace + [GetApp])))
      && OpenHelm(o, World(s.world.releases, s.world.trace + [GetApp])) == (true, Opened(s.world))
      && kept == Survivors(list, TornDownFails(o, s)) && (kept == [] <==> true !in TornDownFails(o, s))
  {
    TeardownExact(o, RecordedList(s.app.value), Opened(s.world));
    SurvivorsEmptyIff(RecordedList(s.app.value), TornDownFails(o, s));
    assert s.world.trace + [GetApp] + [NewConfig] + [InitHelm] == s.world.trace + [GetApp, NewConfig, InitHelm];
  }

  /** A deletion pass that cannot read the object or create a Helm client stops at the call that failed; one
      that finds no status stops after them. Neither changes anything. */
  lemma DeletionStops(o: Oracle, s: State)
    requires s.app.Some? && s.app.value.deleting && (s.app.value.status.None? || !Opens(o, s.world))
    ensures var (outcome, s') := Reconcile(o, s);
      && outcome == (if Opens(o, s.world) then Panic else Error)
      && s' == s.(world := World(s.world.releases, s'.world.trace))
      && MadeUntilFailure(o, s.world, s'.world, [GetApp, NewConfig, InitHelm])
  {
    var n, plan := |s.world.trace|, [GetApp, NewConfig, InitHelm];
    assert plan[..1] == [GetApp] && plan[..2] == [GetApp, NewConfig] && plan[..3] == plan;
    assert s.world.trace + [GetApp] + [NewConfig] == s.world.trace + plan[..2];
    assert s.world.trace + [GetApp] + [NewConfig] + [InitHelm] == s.world.trace + plan;
  }

  /** Any other one is queued again exactly if its status write is answered with success and some entry
      fails to uninstall; it is done exactly if none fails and both its writes are answered with success;
      and it ends in an error otherwise. It uninstalls, writes the status, and then, only if that is
      answered with success and no entry failed, removes the finalizer. */
  lemma DeletionOutcomeIff(o: Oracle, s: State)
    requires s.app.Some? && s.app.value.deleting && s.app.value.status.Some? && Opens(o, s.world)
    ensures var (outcome, s') := Reconcile(o, s);
      var m, failed := |TornDown(o, s).trace|, true in TornDownFails(o, s);
      && (outcome == Requeue <==> o.replies(m).Ok? && failed)
      && (outcome == Done <==> o.replies(m).Ok? && !failed && o.replies(m + 1).Ok?)
      && (outcome == Error <==> !o.replies(m).Ok? || (!failed && !o.replies(m + 1).Ok?))
      && s'.world.releases == TornDown(o, s).releases
      && s'.world.trace == TornDown(o, s).trace + [UpdateStatus]
           + (if o.replies(m).Ok? && !failed then [UpdateApp] else [])
  {
    DeletionUnfolded(o, s);
  }

  /** The status such a pass writes lists exactly the entries that failed, marked so, and has the phase
      DELETING if there are any and UNKNOWN if not. The object goes with its finalizer. */
  lemma DeletionWrites(o: Oracle, s: State)
    requires s.app.Some? && s.app.value.deleting && s.app.value.status.Some? && Opens(o, s.world)
    ensures var s' := Reconcile(o, s).1;
      var m, failed := |TornDown(o, s).trace|, true in TornDownFails(o, s);
      && s'.iop == s.iop
      && (s'.app.None? <==> o.replies(m).Ok? && !failed && o.replies(m + 1) != Err(false))
      && (s'.app.Some? ==>
            && s'.app.value == s.app.value.(status := s'.app.value.status)
            && s'.app.value.status == if o.replies(m) == Err(false) then s.app.value.status else
                 Some(Status(if failed then DELETING else UNKNOWN,
                             Survivors(RecordedList(s.app.value), TornDownFails(o, s)))))
  {
    DeletionUnfolded(o, s);
    PhaseIff(true, Survivors(RecordedList(s.app.value), TornDownFails(o, s)));
  }

  // ---- A live object ----

  /** The calls of a live pass before its components: the finalizer is added only if it is missing. */
  function OpeningCalls(app: App): seq<Call> {
    if app.finalizer then [GetApp, NewConfig, InitHelm] else [GetApp, UpdateApp, NewConfig, InitHelm]
  }

  predicate LiveOpens(o: Oracle, s: State)
    requires s.app.Some?
  {
    var n := |s.world.trace|;
    forall i: nat | n <= i < n + |OpeningCalls(s.app.value)| :: o.replies(i).Ok?
  }

  function LiveOpened(s: State): World
    requires s.app.Some?
  {
    World(s.world.releases, s.world.trace + OpeningCalls(s.app.value))
  }

  /** The object as the pass leaves it but for its status. */
  predicate FinalizerOnly(o: Oracle, s: State, app: App)
    requires s.app.Some?
  {
    && app == s.app.value.(finalizer := app.finalizer, status := app.status)
    && (app.finalizer <==>
          (s.app.value.finalizer ||
           (o.replies(|s.world.trace|).Ok? && o.replies(|s.world.trace| + 1) != Err(false))))
  }

  /** A live pass stops at the first of its opening calls that fails, and before its components if it has
      some but no repository. It changes nothing but the finalizer. */
  lemma LiveStops(o: Oracle, s: State)
    requires Live(s) && (CannotStart(s.app.value) || !LiveOpens(o, s))
    ensures var (outcome, s') := Reconcile(o, s);
      && outcome == (if LiveOpens(o, s) then Panic else Error)
      && s'.iop == s.iop && s'.world.releases == s.world.releases
      && s'.app.Some? && FinalizerOnly(o, s, s'.app.value) && s'.app.value.status == s.app.value.status
      && MadeUntilFailure(o, s.world, s'.world, OpeningCalls(s.app.value))
  {
    OpeningPrefixes(o, s);
  }

  lemma OpeningPrefixes(o: Oracle, s: State)
    requires s.app.Some?
    ensures var n, plan := |s.world.trace|, OpeningCalls(s.app.value);
      && plan[..1] == [plan[0]] && plan[..2] == [plan[0], plan[1]] && plan[..3] == [plan[0], plan[1], plan[2]]
      && plan[..|plan|] == plan
      && s.world.trace + [plan[0]] + [plan[1]] == s.world.trace + plan[..2]
      && s.world.trace + [plan[0]] + [plan[1]] + [plan[2]] == s.world.trace + plan[..3]
      && (|plan| == 4 ==> s.world.trace + [plan[0]] + [plan[1]] + [plan[2]] + [plan[3]] == s.world.trace + plan)
      && (LiveOpens(o, s) <==>
            && o.replies(n).Ok? && o.replies(n + 1).Ok? && o.replies(n + 2).Ok?
            && (|plan| == 4 ==> o.replies(n + 3).Ok?))
  {
    var n, plan := |s.world.trace|, OpeningCalls(s.app.value);
    assert LiveOpens(o, s) ==> o.replies(n).Ok? && o.replies(n + 1).Ok? && o.replies(n + 2).Ok?;
    assert LiveOpens(o, s) && |plan| == 4 ==> o.replies(n + 3).Ok?;
  }

  /** Any other one reconciles the components, then sweeps, then writes the status, whose list is the entries
      of both; it ends in an error exactly if that write is answered with one, asks for a retry exactly if
      it is not and an entry is marked failed, and is done otherwise. */
  lemma LiveOutcomeIff(o: Oracle, s: State)
    requires Live(s) && LiveOpens(o, s) && !CannotStart(s.app.value)
    ensures var (outcome, s') := Reconcile(o, s);
      var app, cs := s.app.value, s.app.value.spec.components;
      var (statuses, middle) := ReconcileComponents(o, app.spec, cs, LiveOpened(s));
      var (retained, end) := Sweep(o, Names(cs), RecordedList(app), middle);
      var all, reply := statuses + retained, o.replies(|end.trace|);
      && (outcome == Error <==> !reply.Ok?)
      && (outcome == RequeueAfter <==> reply.Ok? && exists t :: t in all && t.status == "failed")
      && (outcome == Done <==> reply.Ok? && forall t | t in all :: t.status != "failed")
      && s'.world == World(end.releases, end.trace + [UpdateStatus]) && s'.iop == s.iop
      && s'.app.Some? && FinalizerOnly(o, s, s'.app.value) && s'.app.value.finalizer
      && s'.app.value.status ==
           if reply == Err(false) then app.status else Some(Status(OverallPhase(false, all), all))
  {
    LiveBegins(o, s);
    var p := Prepared(o, s);
    LiveUnfolded(o, p);
    var run := RunLive(o, p.app.value, p.world);
    PhaseIff(false, run.statuses + run.retained);
  }

  lemma LiveBegins(o: Oracle, s: State)
    requires Live(s) && LiveOpens(o, s)
    ensures var p := Prepared(o, s);
      && Reconcile(o, s) == ReconcileLive(o, p) && OpenHelm(o, p.world) == (true, LiveOpened(s))
      && p.app == Some(s.app.value.(finalizer := true)) && p.iop == s.iop
  {
    OpeningPrefixes(o, s);
  }
}
