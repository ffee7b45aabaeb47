/** What a pass of the IstioOperator reconciler calls, writes and returns, reply by reply. */
module OperatorPasses {
  import opened Prelude
  import opened Types
  import opened Helm
  import opened Istio
  import opened IstioLaws

  /** The HelmApp that is wanted, if the operator has a spec that can be translated. */
  function Wanted(iop: Iop): Option<Spec> {
    if iop.spec.None? then None else Convert(iop.name, iop.tag, iop.spec.value)
  }

  lemma WantedIff(iop: Iop)
    ensures Wanted(iop).Some? <==> iop.spec.Some? && !Untranslatable(iop.spec.value)
  {
    if iop.spec.Some? { TranslationFailsIff(iop.name, iop.tag, iop.spec.value); }
  }

  // ---- The calls ----

  /** Create the HelmApp if there is none, update it if it is managed and differs, else leave it. */
  function StorePlan(app: Option<App>, wanted: Spec): seq<Call> {
    if app.None? then [CreateApp]
    else if app.value.managed && app.value.spec != wanted then [UpdateApp]
    else []
  }

  function LivePlan(iop: Iop, app: Option<App>): seq<Call> {
    if iop.spec.None? then []
    else if Untranslatable(iop.spec.value) then [ReadProfile]
    else [ReadProfile, GetApp] + StorePlan(app, Convert(iop.name, iop.tag, iop.spec.value).value)
  }

  function DeletionPlan(app: Option<App>): seq<Call> {
    if app.Some? && app.value.managed then [GetApp, DeleteApp, UpdateIop] else [GetApp, UpdateIop]
  }

  /** The calls of a pass when none of them fails. */
  function Plan(s: State): seq<Call> {
    if s.iop.None? then [GetIop]
    else if s.iop.value.deleting then [GetIop] + DeletionPlan(s.app)
    else if s.iop.value.finalizer then [GetIop] + LivePlan(s.iop.value, s.app)
    else [GetIop, UpdateIop] + LivePlan(s.iop.value, s.app)
  }

  /** The calls were made and took effect. */
  ghost predicate Wrote(o: Oracle, s: State, s': State, c: Call) {
    Took(o, s.world, s'.world, c)
  }

  /** What the writes of a pass leave of the HelmApp, each exactly if it was made and took effect: created with
      the wanted spec and under the operator's label, given that spec, or deleted. */
  ghost predicate AppWritten(o: Oracle, s: State, s': State) {
    && (Wrote(o, s, s', CreateApp) ==>
          && s.iop.Some? && s.app.None? && s'.app.Some? && Wanted(s.iop.value) == Some(s'.app.value.spec)
          && s'.app.value == App(s'.app.value.spec, None, false, false, true))
    && (Wrote(o, s, s', UpdateApp) ==>
          && s.iop.Some? && s.app.Some? && s'.app.Some? && Wanted(s.iop.value) == Some(s'.app.value.spec)
          && s.app.value.managed && s'.app.value == s.app.value.(spec := s'.app.value.spec))
    && (Wrote(o, s, s', DeleteApp) ==> s.app.Some? && s.app.value.managed && s'.app == Deleted(s.app.value))
    && (!Wrote(o, s, s', CreateApp) && !Wrote(o, s, s', UpdateApp) && !Wrote(o, s, s', DeleteApp) ==> s'.app == s.app)
  }

  /** And of the operator: its finalizer added, or, of a deleted one, removed and the operator with it. */
  ghost predicate IopWritten(o: Oracle, s: State, s': State) {
    if Wrote(o, s, s', UpdateIop)
    then s.iop.Some? && s'.iop == if s.iop.value.deleting then None else Some(s.iop.value.(finalizer := true))
    else s'.iop == s.iop
  }

  /** The pass has done its planned calls up to the first failure, is done exactly if there was none and
      nothing else was in its way, and has left what its writes say. */
  ghost predicate Exact(o: Oracle, s: State, plan: seq<Call>, blocked: bool, outcome: Outcome, s': State) {
    && MadeUntilFailure(o, s.world, s'.world, plan) && s'.world.releases == s.world.releases
    && (outcome == Done <==> AllOk(o, s.world, s'.world) && !blocked) && (outcome == Done || outcome == Error)
    && AppWritten(o, s, s') && IopWritten(o, s, s')
  }

  predicate Blocked(iop: Iop) {
    iop.spec.None? || Untranslatable(iop.spec.value)
  }

  // ---- Calls one after the other ----

  lemma PlansCompose(o: Oracle, a: World, b: World, c: World, first: seq<Call>, rest: seq<Call>)
    requires b.trace == a.trace + first && AllOk(o, a, b) && MadeUntilFailure(o, b, c, rest)
    ensures MadeUntilFailure(o, a, c, first + rest) && (AllOk(o, a, c) <==> AllOk(o, b, c))
  {
    var k := |c.trace| - |b.trace|;
    assert (first + rest)[..|first| + k] == first + rest[..k];
    assert c.trace == a.trace + (first + rest)[..|first| + k];
  }

  /** A call that is not among those made did not take effect. */
  lemma NotTook(o: Oracle, before: World, after: World, calls: seq<Call>, x: Call)
    requires after.trace == before.trace + calls && x !in calls
    ensures !Took(o, before, after, x)
  {
    assert forall k | |before.trace| <= k < |after.trace| :: after.trace[k] == calls[k - |before.trace|];
  }

  /** One made once, as the i-th, did exactly if its reply says so. */
  lemma TookAt(o: Oracle, before: World, after: World, calls: seq<Call>, i: nat)
    requires after.trace == before.trace + calls && i < |calls|
    requires calls[i] !in calls[..i] && calls[i] !in calls[i + 1..]
    ensures Took(o, before, after, calls[i]) <==> o.replies(|before.trace| + i) != Err(false)
  {
    var n := |before.trace|;
    assert after.trace[n + i] == calls[i];
    assert forall k | n <= k < n + i :: after.trace[k] == calls[..i][k - n];
    assert forall k | n + i < k < |after.trace| :: after.trace[k] == calls[i + 1..][k - n - i - 1];
  }

  lemma TookCompose(o: Oracle, a: World, b: World, c: World, first: seq<Call>, x: Call)
    requires b.trace == a.trace + first && b.trace <= c.trace && x !in first
    ensures Took(o, a, c, x) <==> Took(o, b, c, x)
  {
    if Took(o, a, c, x) {
      var i: nat :| |a.trace| <= i < |c.trace| && c.trace[i] == x && o.replies(i) != Err(false);
      assert i >= |b.trace|;
    }
  }

  /** First some calls that succeed and write nothing but perhaps the operator's finalizer, then the rest. */
  lemma ExactCompose(o: Oracle, s: State, s0: State, first: seq<Call>, plan: seq<Call>, blocked: bool,
                     outcome: Outcome, s': State)
    requires s0.world == World(s.world.releases, s.world.trace + first) && AllOk(o, s.world, s0.world)
    requires s0.app == s.app && CreateApp !in first && UpdateApp !in first && DeleteApp !in first
    requires s.iop.Some? && s0.iop.Some? && Wanted(s0.iop.value) == Wanted(s.iop.value)
    requires Exact(o, s0, plan, blocked, outcome, s') && IopWritten(o, s, s')
    ensures Exact(o, s, first + plan, blocked, outcome, s')
  {
    PlansCompose(o, s.world, s0.world, s'.world, first, plan);
    TookCompose(o, s.world, s0.world, s'.world, first, CreateApp);
    TookCompose(o, s.world, s0.world, s'.world, first, UpdateApp);
    TookCompose(o, s.world, s0.world, s'.world, first, DeleteApp);
  }

  // ---- A live operator ----

  /** A pass of one call, or that stops at its first, and changes nothing. */
  lemma OneCall(o: Oracle, s: State, first: Call, rest: seq<Call>, outcome: Outcome, s': State)
    requires s' == s.(world := World(s.world.releases, s.world.trace + [first]))
    requires first == GetApp || first == ReadProfile || first == GetIop
    requires !o.replies(|s.world.trace|).Ok? || rest == []
    requires outcome == if o.replies(|s.world.trace|).Ok? then Done else Error
    ensures Exact(o, s, [first] + rest, false, outcome, s') && !Wrote(o, s, s', UpdateIop)
  {
    assert ([first] + rest)[..1] == [first];
    NotTook(o, s.world, s'.world, [first], CreateApp);
    NotTook(o, s.world, s'.world, [first], UpdateApp);
    NotTook(o, s.world, s'.world, [first], DeleteApp);
    NotTook(o, s.world, s'.world, [first], UpdateIop);
  }

  lemma StoreWrites(o: Oracle, s: State, spec: Spec, write: Call, outcome: Outcome, s': State)
    requires s.iop.Some? && Wanted(s.iop.value) == Some(spec)
    requires write == if s.app.None? then CreateApp else UpdateApp
    requires s.app.Some? ==> s.app.value.managed
    requires o.replies(|s.world.trace|).Ok?
    requires outcome == if o.replies(|s.world.trace| + 1).Ok? then Done else Error
    requires s'.iop == s.iop && s'.world == World(s.world.releases, s.world.trace + [GetApp, write])
    requires s'.app == if o.replies(|s.world.trace| + 1) == Err(false) then s.app
                       else if s.app.None? then Some(App(spec, None, false, false, true))
                       else Some(s.app.value.(spec := spec))
    ensures Exact(o, s, [GetApp, write], false, outcome, s') && !Wrote(o, s, s', UpdateIop)
  {
    var calls := [GetApp, write];
    assert calls[..2] == calls;
    NotTook(o, s.world, s'.world, calls, if s.app.None? then UpdateApp else CreateApp);
    NotTook(o, s.world, s'.world, calls, DeleteApp);
    NotTook(o, s.world, s'.world, calls, UpdateIop);
    TookAt(o, s.world, s'.world, calls, 1);
  }

  lemma StoreStops(o: Oracle, s: State, spec: Spec)
    requires s.iop.Some? && (!o.replies(|s.world.trace|).Ok? || StorePlan(s.app, spec) == [])
    ensures var (outcome, s') := CreateOrUpdate(o, s, spec);
      Exact(o, s, [GetApp] + StorePlan(s.app, spec), false, outcome, s') && !Wrote(o, s, s', UpdateIop)
  {
    var (outcome, s') := CreateOrUpdate(o, s, spec);
    OneCall(o, s, GetApp, StorePlan(s.app, spec), outcome, s');
  }

  lemma StoreGoesOn(o: Oracle, s: State, spec: Spec)
    requires s.iop.Some? && Wanted(s.iop.value) == Some(spec)
    requires o.replies(|s.world.trace|).Ok? && StorePlan(s.app, spec) != []
    ensures var (outcome, s') := CreateOrUpdate(o, s, spec);
      Exact(o, s, [GetApp] + StorePlan(s.app, spec), false, outcome, s') && !Wrote(o, s, s', UpdateIop)
  {
    var (outcome, s') := CreateOrUpdate(o, s, spec);
    var write := StorePlan(s.app, spec)[0];
    assert s.world.trace + [GetApp] + [write] == s.world.trace + [GetApp, write];
    assert [GetApp] + StorePlan(s.app, spec) == [GetApp, write];
    StoreWrites(o, s, spec, write, outcome, s');
  }

  lemma StoreExact(o: Oracle, s: State, spec: Spec)
    requires s.iop.Some? && Wanted(s.iop.value) == Some(spec)
    ensures var (outcome, s') := CreateOrUpdate(o, s, spec);
      Exact(o, s, [GetApp] + StorePlan(s.app, spec), false, outcome, s') && !Wrote(o, s, s', UpdateIop)
  {
    if !o.replies(|s.world.trace|).Ok? || StorePlan(s.app, spec) == [] {
      StoreStops(o, s, spec);
    } else {
      StoreGoesOn(o, s, spec);
    }
  }

  lemma LiveUnfolded(o: Oracle, s: State)
    requires s.iop.Some? && !Blocked(s.iop.value) && o.replies(|s.world.trace|).Ok?
    ensures var spec := Wanted(s.iop.value);
      && spec.Some?
      && IopLive(o, s) ==
           CreateOrUpdate(o, s.(world := World(s.world.releases, s.world.trace + [ReadProfile])), spec.value)
      && LivePlan(s.iop.value, s.app) == [ReadProfile] + ([GetApp] + StorePlan(s.app, spec.value))
  {
    WantedIff(s.iop.value);
  }

  lemma LiveStops(o: Oracle, s: State)
    requires s.iop.Some? && (Blocked(s.iop.value) || !o.replies(|s.world.trace|).Ok?)
    ensures var (outcome, s') := IopLive(o, s);
      && Exact(o, s, LivePlan(s.iop.value, s.app), Blocked(s.iop.value), outcome, s')
      && !Wrote(o, s, s', UpdateIop)
  {
    var s' := IopLive(o, s).1;
    WantedIff(s.iop.value);
    if s.iop.value.spec.Some? {
      var plan, stopped := LivePlan(s.iop.value, s.app), if o.replies(|s.world.trace|).Ok? then Done else Error;
      assert plan == [ReadProfile] + plan[1..];
      OneCall(o, s, ReadProfile, plan[1..], stopped, s');
    }
  }

  lemma LiveGoesOn(o: Oracle, s: State, spec: Spec)
    requires s.iop.Some? && Wanted(s.iop.value) == Some(spec) && o.replies(|s.world.trace|).Ok?
    ensures var s0 := s.(world := World(s.world.releases, s.world.trace + [ReadProfile]));
      var (outcome, s') := CreateOrUpdate(o, s0, spec);
      && Exact(o, s, [ReadProfile] + ([GetApp] + StorePlan(s.app, spec)), false, outcome, s')
      && !Wrote(o, s, s', UpdateIop)
  {
    var s0 := s.(world := World(s.world.releases, s.world.trace + [ReadProfile]));
    var (outcome, s') := CreateOrUpdate(o, s0, spec);
    StoreExact(o, s0, spec);
    TookCompose(o, s.world, s0.world, s'.world, [ReadProfile], UpdateIop);
    ExactCompose(o, s, s0, [ReadProfile], [GetApp] + StorePlan(s.app, spec), false, outcome, s');
  }

  lemma LiveExact(o: Oracle, s: State)
    requires s.iop.Some?
    ensures var (outcome, s') := IopLive(o, s);
      && Exact(o, s, LivePlan(s.iop.value, s.app), Blocked(s.iop.value), outcome, s')
      && !Wrote(o, s, s', UpdateIop)
  {
    if Blocked(s.iop.value) || !o.replies(|s.world.trace|).Ok? {
      LiveStops(o, s);
    } else {
      LiveUnfolded(o, s);
      LiveGoesOn(o, s, Wanted(s.iop.value).value);
    }
  }

  // ---- A deleted operator ----

  /** All calls up to the removal of the operator's finalizer were made, without a HelmApp to delete. */
  lemma Removed(o: Oracle, s: State, outcome: Outcome, s': State)
    requires s.iop.Some? && s.iop.value.deleting && o.replies(|s.world.trace|).Ok? && s'.app == s.app
    requires s'.world == World(s.world.releases, s.world.trace + [GetApp, UpdateIop])
    requires outcome == if o.replies(|s.world.trace| + 1).Ok? then Done else Error
    requires s'.iop == if o.replies(|s.world.trace| + 1) != Err(false) then None else s.iop
    ensures Exact(o, s, [GetApp, UpdateIop], false, outcome, s')
  {
    var calls := [GetApp, UpdateIop];
    assert calls[..2] == calls;
    NotTook(o, s.world, s'.world, calls, CreateApp);
    NotTook(o, s.world, s'.world, calls, UpdateApp);
    NotTook(o, s.world, s'.world, calls, DeleteApp);
    TookAt(o, s.world, s'.world, calls, 1);
  }

  /** The same with one. */
  lemma BothRemoved(o: Oracle, s: State, outcome: Outcome, s': State)
    requires s.iop.Some? && s.iop.value.deleting && s.app.Some? && s.app.value.managed
    requires o.replies(|s.world.trace|).Ok? && o.replies(|s.world.trace| + 1).Ok? && s'.app == Deleted(s.app.value)
    requires s'.world == World(s.world.releases, s.world.trace + [GetApp, DeleteApp, UpdateIop])
    requires outcome == if o.replies(|s.world.trace| + 2).Ok? then Done else Error
    requires s'.iop == if o.replies(|s.world.trace| + 2) != Err(false) then None else s.iop
    ensures Exact(o, s, [GetApp, DeleteApp, UpdateIop], false, outcome, s')
  {
    var calls := [GetApp, DeleteApp, UpdateIop];
    assert calls[..3] == calls;
    NotTook(o, s.world, s'.world, calls, CreateApp);
    NotTook(o, s.world, s'.world, calls, UpdateApp);
    TookAt(o, s.world, s'.world, calls, 1);
    TookAt(o, s.world, s'.world, calls, 2);
  }

  /** The deletion of the HelmApp was answered with an error. */
  lemma NotRemoved(o: Oracle, s: State, s': State)
    requires s.iop.Some? && s.iop.value.deleting && s.app.Some? && s.app.value.managed && s'.iop == s.iop
    requires s'.world == World(s.world.releases, s.world.trace + [GetApp, DeleteApp])
    requires o.replies(|s.world.trace|).Ok? && !o.replies(|s.world.trace| + 1).Ok?
    requires s'.app == if o.replies(|s.world.trace| + 1) != Err(false) then Deleted(s.app.value) else s.app
    ensures Exact(o, s, [GetApp, DeleteApp, UpdateIop], false, Error, s')
  {
    var plan, calls := [GetApp, DeleteApp, UpdateIop], [GetApp, DeleteApp];
    assert plan[..2] == calls;
    NotTook(o, s.world, s'.world, calls, CreateApp);
    NotTook(o, s.world, s'.world, calls, UpdateApp);
    NotTook(o, s.world, s'.world, calls, UpdateIop);
    TookAt(o, s.world, s'.world, calls, 1);
  }

  lemma UnmanagedExact(o: Oracle, s: State)
    requires s.iop.Some? && s.iop.value.deleting && !(s.app.Some? && s.app.value.managed)
    ensures var (outcome, s') := IopDelete(o, s);
      Exact(o, s, [GetApp, UpdateIop], false, outcome, s')
  {
    var (outcome, s') := IopDelete(o, s);
    if !o.replies(|s.world.trace|).Ok? {
      OneCall(o, s, GetApp, [UpdateIop], outcome, s');
    } else {
      assert s.world.trace + [GetApp] + [UpdateIop] == s.world.trace + [GetApp, UpdateIop];
      Removed(o, s, outcome, s');
    }
  }

  lemma ManagedExact(o: Oracle, s: State)
    requires s.iop.Some? && s.iop.value.deleting && s.app.Some? && s.app.value.managed
    ensures var (outcome, s') := IopDelete(o, s);
      Exact(o, s, [GetApp, DeleteApp, UpdateIop], false, outcome, s')
  {
    var (outcome, s') := IopDelete(o, s);
    var n, plan := |s.world.trace|, [GetApp, DeleteApp, UpdateIop];
    if !o.replies(n).Ok? {
      assert [GetApp] + [DeleteApp, UpdateIop] == plan;
      OneCall(o, s, GetApp, [DeleteApp, UpdateIop], outcome, s');
    } else if !o.replies(n + 1).Ok? {
      assert s.world.trace + [GetApp] + [DeleteApp] == s.world.trace + [GetApp, DeleteApp];
      NotRemoved(o, s, s');
    } else {
      assert s.world.trace + [GetApp] + [DeleteApp] + [UpdateIop] == s.world.trace + plan;
      BothRemoved(o, s, outcome, s');
    }
  }

  /** The HelmApp is looked up and, if it is managed, deleted; only then is the finalizer removed. */
  lemma DeletionExact(o: Oracle, s: State)
    requires s.iop.Some? && s.iop.value.deleting
    ensures var (outcome, s') := IopDelete(o, s);
      Exact(o, s, DeletionPlan(s.app), false, outcome, s')
  {
    if s.app.Some? && s.app.value.managed { ManagedExact(o, s); } else { UnmanagedExact(o, s); }
  }

  // ---- The pass ----

  function Looked(s: State): State {
    s.(world := World(s.world.releases, s.world.trace + [GetIop]))
  }

  lemma IopWrittenLater(o: Oracle, s: State, s': State)
    requires Looked(s).world.trace <= s'.world.trace && IopWritten(o, Looked(s), s')
    ensures IopWritten(o, s, s')
  {
    TookCompose(o, s.world, Looked(s).world, s'.world, [GetIop], UpdateIop);
  }

  predicate BlockedIn(s: State) {
    s.iop.Some? && !s.iop.value.deleting && Blocked(s.iop.value)
  }

  lemma StopsAtOnce(o: Oracle, s: State)
    requires !o.replies(|s.world.trace|).Ok? || s.iop.None?
    ensures var (outcome, s') := IopReconcile(o, s);
      Exact(o, s, Plan(s), BlockedIn(s), outcome, s')
  {
    assert Plan(s)[..1] == [GetIop];
  }

  lemma LookedCompose(o: Oracle, s: State, plan: seq<Call>, blocked: bool, outcome: Outcome, s': State)
    requires o.replies(|s.world.trace|).Ok? && s.iop.Some? && Exact(o, Looked(s), plan, blocked, outcome, s')
    ensures Exact(o, s, [GetIop] + plan, blocked, outcome, s')
  {
    IopWrittenLater(o, s, s');
    ExactCompose(o, s, Looked(s), [GetIop], plan, blocked, outcome, s');
  }

  lemma DeletedExact(o: Oracle, s: State)
    requires o.replies(|s.world.trace|).Ok? && s.iop.Some? && s.iop.value.deleting
    ensures var (outcome, s') := IopReconcile(o, s);
      Exact(o, s, Plan(s), BlockedIn(s), outcome, s')
  {
    var (outcome, s') := IopDelete(o, Looked(s));
    DeletionExact(o, Looked(s));
    LookedCompose(o, s, DeletionPlan(s.app), false, outcome, s');
  }

  lemma LookedExact(o: Oracle, s: State)
    requires o.replies(|s.world.trace|).Ok? && s.iop.Some? && !s.iop.value.deleting && s.iop.value.finalizer
    ensures var (outcome, s') := IopReconcile(o, s);
      Exact(o, s, Plan(s), BlockedIn(s), outcome, s')
  {
    var (outcome, s') := IopLive(o, Looked(s));
    LiveExact(o, Looked(s));
    LookedCompose(o, s, LivePlan(s.iop.value, s.app), Blocked(s.iop.value), outcome, s');
  }

  function Held(s: State): State
    requires s.iop.Some?
  {
    State(Some(s.iop.value.(finalizer := true)), s.app, World(s.world.releases, s.world.trace + [GetIop, UpdateIop]))
  }

  lemma HeldUnfolded(o: Oracle, s: State)
    requires o.replies(|s.world.trace|).Ok? && o.replies(|s.world.trace| + 1).Ok?
    requires s.iop.Some? && !s.iop.value.deleting && !s.iop.value.finalizer
    ensures IopReconcile(o, s) == IopLive(o, Held(s))
    ensures Plan(s) == [GetIop, UpdateIop] + LivePlan(s.iop.value, s.app)
  {
    assert s.world.trace + [GetIop] + [UpdateIop] == Held(s).world.trace;
  }

  lemma HeldTook(o: Oracle, before: World, after: World)
    requires before.trace + [GetIop, UpdateIop] <= after.trace && o.replies(|before.trace| + 1).Ok?
    ensures Took(o, before, after, UpdateIop)
  {
    var n := |before.trace|;
    assert after.trace[n + 1] == (before.trace + [GetIop, UpdateIop])[n + 1] == UpdateIop;
  }

  lemma HeldCompose(o: Oracle, s: State, plan: seq<Call>, outcome: Outcome, s': State)
    requires o.replies(|s.world.trace|).Ok? && o.replies(|s.world.trace| + 1).Ok?
    requires s.iop.Some? && !s.iop.value.deleting
    requires Exact(o, Held(s), plan, Blocked(s.iop.value), outcome, s') && !Wrote(o, Held(s), s', UpdateIop)
    ensures Exact(o, s, [GetIop, UpdateIop] + plan, BlockedIn(s), outcome, s')
  {
    HeldTook(o, s.world, s'.world);
    assert IopWritten(o, s, s');
    ExactCompose(o, s, Held(s), [GetIop, UpdateIop], plan, Blocked(s.iop.value), outcome, s');
  }

  lemma HeldExact(o: Oracle, s: State)
    requires o.replies(|s.world.trace|).Ok? && o.replies(|s.world.trace| + 1).Ok?
    requires s.iop.Some? && !s.iop.value.deleting && !s.iop.value.finalizer
    ensures var (outcome, s') := IopLive(o, Held(s));
      Exact(o, s, [GetIop, UpdateIop] + LivePlan(s.iop.value, s.app), BlockedIn(s), outcome, s')
  {
    var (outcome, s') := IopLive(o, Held(s));
    LiveExact(o, Held(s));
    HeldCompose(o, s, LivePlan(s.iop.value, s.app), outcome, s');
  }

  lemma HoldWrites(o: Oracle, s: State, rest: seq<Call>, outcome: Outcome, s': State)
    requires s.iop.Some? && !s.iop.value.deleting
    requires o.replies(|s.world.trace|).Ok? && !o.replies(|s.world.trace| + 1).Ok? && outcome == Error
    requires s'.app == s.app && s'.world == World(s.world.releases, s.world.trace + [GetIop, UpdateIop])
    requires s'.iop == if o.replies(|s.world.trace| + 1) == Err(false) then s.iop
                       else Some(s.iop.value.(finalizer := true))
    ensures Exact(o, s, [GetIop, UpdateIop] + rest, BlockedIn(s), outcome, s')
  {
    var calls := [GetIop, UpdateIop];
    assert (calls + rest)[..2] == calls;
    NotTook(o, s.world, s'.world, calls, CreateApp);
    NotTook(o, s.world, s'.world, calls, UpdateApp);
    NotTook(o, s.world, s'.world, calls, DeleteApp);
    TookAt(o, s.world, s'.world, calls, 1);
  }

  lemma HoldFails(o: Oracle, s: State)
    requires o.replies(|s.world.trace|).Ok? && !o.replies(|s.world.trace| + 1).Ok?
    requires s.iop.Some? && !s.iop.value.deleting && !s.iop.value.finalizer
    ensures var (outcome, s') := IopReconcile(o, s);
      Exact(o, s, Plan(s), BlockedIn(s), outcome, s')
  {
    var (outcome, s') := IopReconcile(o, s);
    assert s.world.trace + [GetIop] + [UpdateIop] == s.world.trace + [GetIop, UpdateIop];
    HoldWrites(o, s, LivePlan(s.iop.value, s.app), outcome, s');
  }

  lemma OperatorExact(o: Oracle, s: State)
    ensures var (outcome, s') := IopReconcile(o, s);
      Exact(o, s, Plan(s), BlockedIn(s), outcome, s')
  {
    if !o.replies(|s.world.trace|).Ok? || s.iop.None? {
      StopsAtOnce(o, s);
    } else if s.iop.value.deleting {
      DeletedExact(o, s);
    } else if s.iop.value.finalizer {
      LookedExact(o, s);
    } else if o.replies(|s.world.trace| + 1).Ok? {
      HeldUnfolded(o, s);
      HeldExact(o, s);
    } else {
      HoldFails(o, s);
    }
  }

  /** Every pass makes its planned calls up to the first that fails. It is done exactly if none fails and
      there is nothing to translate, or something that can be, and ends in an error otherwise. */
  lemma OperatorOutcomeIff(o: Oracle, s: State)
    ensures var (outcome, s') := IopReconcile(o, s);
      && MadeUntilFailure(o, s.world, s'.world, Plan(s))
      && (outcome == Done <==>
            && AllOk(o, s.world, s'.world)
            && (s.iop.Some? && !s.iop.value.deleting ==>
                  s.iop.value.spec.Some? && !Untranslatable(s.iop.value.spec.value)))
      && (outcome != Done ==> outcome == Error)
  {
    OperatorExact(o, s);
  }

  /** What the writes of a pass leave; it touches no release. */
  lemma OperatorWrites(o: Oracle, s: State)
    ensures var s' := IopReconcile(o, s).1;
      s'.world.releases == s.world.releases && AppWritten(o, s, s') && IopWritten(o, s, s')
  {
    OperatorExact(o, s);
  }
}
