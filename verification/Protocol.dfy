/** Whole runs of the two controllers and their users, in any interleaving and with any failures. */
module Protocol {
  import opened Prelude
  import opened Types
  import opened Helm
  import opened HelmApp
  import opened Passes
  import opened Istio

  datatype Action =
    | HelmAppPass
    | IopPass
    | CreateHelmApp(spec: Spec)
    | EditHelmApp(spec: Spec)
    | DeleteHelmApp
    | CreateIop(name: string, tag: string, iopSpec: Option<IopSpec>)
    | EditIop(tag: string, iopSpec: Option<IopSpec>)
    | DeleteIop

  /** One pass of a controller, or one change by a user. Users never write the ownership label. */
  function Step(o: Oracle, s: State, a: Action): State {
    match a
    case HelmAppPass => Reconcile(o, s).1
    case IopPass => IopReconcile(o, s).1
    case CreateHelmApp(spec) =>
      if s.app.None? then s.(app := Some(App(spec, None, false, false, false))) else s
    case EditHelmApp(spec) => if s.app.Some? then s.(app := Some(s.app.value.(spec := spec))) else s
    case DeleteHelmApp => if s.app.Some? then s.(app := Deleted(s.app.value)) else s
    case CreateIop(name, tag, spec) =>
      if s.iop.None? then s.(iop := Some(Iop(name, tag, spec, false, false))) else s
    case EditIop(tag, spec) =>
      if s.iop.Some? then s.(iop := Some(s.iop.value.(tag := tag, spec := spec))) else s
    case DeleteIop =>
      if s.iop.None? then s
      else s.(iop := if s.iop.value.finalizer then Some(s.iop.value.(deleting := true)) else None)
  }

  function Run(o: Oracle, s: State, actions: seq<Action>): State
    decreases actions
  {
    if actions == [] then s else Run(o, Step(o, s, actions[0]), actions[1..])
  }

  // ---- Release tracking ----

  /** Every release that was not there from the start is found in the stored spec or status, and
      in the status alone once the object is being deleted. */
  ghost predicate Tracked(s: State, foreign: set<string>) {
    var owned := s.world.releases.Keys - foreign;
    && "" !in owned
    && (s.app.None? ==> owned == {})
    && (s.app.Some? ==>
          && owned <= Names(s.app.value.spec.components) + Recorded(s.app.value)
          && (!s.app.value.finalizer ==> owned == {})
          && (s.app.value.deleting ==> s.app.value.finalizer && owned <= Recorded(s.app.value)))
  }

  /** The stored status names every owned release, as it does after each successful status write. */
  ghost predicate Synced(s: State, foreign: set<string>) {
    s.app.Some? ==> s.world.releases.Keys - foreign <= Recorded(s.app.value)
  }

  lemma LiveTracks(o: Oracle, s: State, foreign: set<string>)
    requires Tracked(s, foreign) && s.app.Some? && s.app.value.finalizer && !s.app.value.deleting
    ensures Tracked(ReconcileLive(o, s).1, foreign)
  {
    LivePass(o, s);
    var s' := ReconcileLive(o, s).1;
    forall n | n in s'.world.releases && n !in foreign
      ensures n != "" && n in Names(s'.app.value.spec.components) + Recorded(s'.app.value)
    {
      assert n in s.world.releases ==> n in s.world.releases.Keys - foreign;
    }
  }

  lemma DeleteTracks(o: Oracle, s: State, foreign: set<string>)
    requires Tracked(s, foreign) && s.app.Some? && s.app.value.deleting
    ensures Tracked(ReconcileDelete(o, s).1, foreign)
  {
    DeletePass(o, s);
    var s' := ReconcileDelete(o, s).1;
    forall n | n in s'.world.releases && n !in foreign
      ensures n != "" && s'.app.Some? && n in Recorded(s'.app.value)
    {
      assert n in s.world.releases.Keys - foreign;
      assert n in Recorded(s.app.value) - {""};
    }
  }

  lemma HelmAppPassTracks(o: Oracle, s: State, foreign: set<string>)
    requires Tracked(s, foreign)
    ensures Tracked(Reconcile(o, s).1, foreign)
  {
    if s.app.Some? {
      PassUnfolded(o, s);
      var p := Prepared(o, s);
      if s.app.value.deleting { DeleteTracks(o, p, foreign); } else { LiveTracks(o, p, foreign); }
    }
  }

  /** Whenever a live pass reports its status written, the status alone names every owned release. */
  lemma SuccessfulWriteSyncs(o: Oracle, s: State, foreign: set<string>)
    requires Tracked(s, foreign) && s.app.Some? && !s.app.value.deleting
    requires Reconcile(o, s).0.Done? || Reconcile(o, s).0.RequeueAfter?
    ensures Synced(Reconcile(o, s).1, foreign)
  {
    PassUnfolded(o, s);
    LivePass(o, Prepared(o, s));
    var s' := Reconcile(o, s).1;
    forall n | n in s'.world.releases && n !in foreign ensures n in Recorded(s'.app.value) {
      assert n in s.world.releases ==> n in s.world.releases.Keys - foreign;
    }
  }

  /** When a pass removes the finalizer, no owned release is left. */
  lemma NothingLeftWhenReleased(o: Oracle, s: State, foreign: set<string>)
    requires Tracked(s, foreign) && s.app.Some? && Reconcile(o, s).1.app.None?
    ensures Reconcile(o, s).1.world.releases.Keys <= foreign
  {
    HelmAppPassTracks(o, s, foreign);
    var left := Reconcile(o, s).1.world.releases.Keys;
    assert forall n | n in left :: n in left - foreign || n in foreign;
  }

  // ---- Changes made by others ----

  /** A spec edit keeps track of every release exactly when each one that the status does not
      name yet is in the new spec. */
  lemma EditTracksIff(o: Oracle, s: State, spec: Spec, foreign: set<string>)
    requires Tracked(s, foreign) && s.app.Some?
    ensures Tracked(Step(o, s, EditHelmApp(spec)), foreign) <==>
      forall n | n in s.world.releases && n !in foreign && n !in Recorded(s.app.value) ::
        n in Names(spec.components)
  {
    var s1 := Step(o, s, EditHelmApp(spec));
    var owned := s.world.releases.Keys - foreign;
    if Tracked(s1, foreign) {
      forall n | n in s.world.releases && n !in foreign && n !in Recorded(s.app.value)
        ensures n in Names(spec.components)
      {
        assert n in owned;
      }
    }
    if forall n | n in s.world.releases && n !in foreign && n !in Recorded(s.app.value) :: n in Names(spec.components) {
      forall n | n in owned ensures n in Names(spec.components) + Recorded(s.app.value) {}
      assert Tracked(s1, foreign);
    }
  }

  /** A deletion keeps track of every release exactly when the status names them all. */
  lemma DeleteTracksIff(o: Oracle, s: State, foreign: set<string>)
    requires Tracked(s, foreign) && s.app.Some?
    ensures Tracked(Step(o, s, DeleteHelmApp), foreign) <==> Synced(s, foreign)
  {
  }

  function Repeat(o: Oracle, s: State, n: nat): State
    decreases n
  {
    if n == 0 then s else Repeat(o, Reconcile(o, s).1, n - 1)
  }

  /** A release that an edit dropped too early stays in the store for good. */
  lemma {:induction false} UntrackedStays(o: Oracle, s: State, name: string, n: nat)
    requires s.app.Some? && name !in Names(s.app.value.spec.components) + Recorded(s.app.value)
    ensures Find(Repeat(o, s, n).world.releases, name) == Find(s.world.releases, name)
    decreases n
  {
    if n > 0 {
      OutOfReach(o, s, name);
      var s' := Reconcile(o, s).1;
      if s'.app.Some? { UntrackedStays(o, s', name, n - 1); } else { NothingWithoutApp(o, s', n - 1); }
    }
  }

  lemma {:induction false} NothingWithoutApp(o: Oracle, s: State, n: nat)
    requires s.app.None?
    ensures Repeat(o, s, n).app.None? && Repeat(o, s, n).world.releases == s.world.releases
    decreases n
  {
    if n > 0 { NothingWithoutApp(o, Reconcile(o, s).1, n - 1); }
  }

  // ---- Ownership ----

  /** A managed HelmApp that is not being deleted has its operator, held by a finalizer. */
  predicate Supervised(s: State) {
    s.app.Some? && s.app.value.managed && !s.app.value.deleting ==> s.iop.Some? && s.iop.value.finalizer
  }

  lemma HelmAppPassKeeps(o: Oracle, s: State)
    ensures var s' := Reconcile(o, s).1;
      && s'.iop == s.iop
      && (s.app.None? ==> s'.app.None? && s'.world.releases == s.world.releases)
      && (s.app.Some? && s'.app.Some? ==>
            && s'.app.value.managed == s.app.value.managed && s'.app.value.deleting == s.app.value.deleting
            && s'.app.value.spec == s.app.value.spec)
  {
    if s.app.Some? {
      PassUnfolded(o, s);
      var p := Prepared(o, s);
      if s.app.value.deleting { DeletePass(o, p); } else { LivePass(o, p); }
    }
  }

  lemma IopPassSupervises(o: Oracle, s: State)
    requires Supervised(s)
    ensures Supervised(IopReconcile(o, s).1)
  {
  }

  /** The one thing an operator's pass may write about the HelmApp: create it, replace the spec of
      one it manages, or delete one it manages. */
  ghost predicate OperatorWrite(before: Option<App>, after: Option<App>) {
    || after == before
    || (before.None? && after.Some? && after.value == App(after.value.spec, None, false, false, true))
    || (before.Some? && before.value.managed && after.Some? && after.value == before.value.(spec := after.value.spec))
    || (before.Some? && before.value.managed && after == Deleted(before.value))
  }

  lemma IopLiveWrites(o: Oracle, s: State)
    requires s.iop.Some?
    ensures var s' := IopLive(o, s).1;
      && s'.world.releases == s.world.releases && s.world.trace <= s'.world.trace
      && s'.iop == s.iop && OperatorWrite(s.app, s'.app)
  {
  }

  lemma IopPassWrites(o: Oracle, s: State)
    ensures var s' := IopReconcile(o, s).1;
      && s'.world.releases == s.world.releases && s.world.trace <= s'.world.trace
      && OperatorWrite(s.app, s'.app)
  {
    var (reply, w) := Ask(o, s.world, GetIop);
    var s0 := s.(world := w);
    if reply.Ok? && s.iop.Some? && !s.iop.value.deleting {
      IopLiveWrites(o, s0);
      IopLiveWrites(o, WriteIop(o, s0, Some(s.iop.value.(finalizer := true))).1);
    }
  }

  // ---- Runs ----

  ghost predicate Invariant(s: State, foreign: set<string>) {
    Tracked(s, foreign) && Supervised(s)
  }

  /** Apart from the HelmApp reconciler's passes: a HelmApp is deleted only while its status names every
      owned release, and its spec is replaced only by one that names those the status does not. */
  ghost predicate Allowed(o: Oracle, s: State, a: Action, foreign: set<string>) {
    a.HelmAppPass? || s.app.None? ||
    var after := Step(o, s, a).app;
    if after.None? || after.value.deleting then Synced(s, foreign)
    else forall n | n in s.world.releases && n !in foreign && n !in Recorded(s.app.value) ::
           n in Names(after.value.spec.components)
  }

  ghost predicate Disciplined(o: Oracle, s: State, actions: seq<Action>, foreign: set<string>)
    decreases actions
  {
    actions == [] ||
    (Allowed(o, s, actions[0], foreign) && Disciplined(o, Step(o, s, actions[0]), actions[1..], foreign))
  }

  /** What any step but a pass of the HelmApp reconciler may do to the HelmApp and the store. */
  lemma OthersWrite(o: Oracle, s: State, a: Action)
    requires !a.HelmAppPass? && s.app.Some?
    ensures var s' := Step(o, s, a);
      && s'.world.releases == s.world.releases
      && (s'.app == Deleted(s.app.value) ||
          (s'.app.Some? && s'.app.value == s.app.value.(spec := s'.app.value.spec)))
  {
    if a.IopPass? { IopPassWrites(o, s); }
  }

  lemma StepSupervises(o: Oracle, s: State, a: Action)
    requires Supervised(s)
    ensures Supervised(Step(o, s, a))
  {
    if a.HelmAppPass? { HelmAppPassKeeps(o, s); }
    if a.IopPass? { IopPassSupervises(o, s); }
  }

  lemma StepTracksIff(o: Oracle, s: State, a: Action, foreign: set<string>)
    requires Tracked(s, foreign)
    ensures Tracked(Step(o, s, a), foreign) <==> Allowed(o, s, a, foreign)
  {
    if a.HelmAppPass? {
      HelmAppPassTracks(o, s, foreign);
    } else if s.app.None? {
      if a.IopPass? { IopPassWrites(o, s); }
    } else {
      OthersWrite(o, s, a);
      var s' := Step(o, s, a);
      if s'.app == Deleted(s.app.value) {
        DeleteTracksIff(o, s, foreign);
        assert Tracked(s', foreign) <==> Tracked(Step(o, s, DeleteHelmApp), foreign);
      } else {
        EditTracksIff(o, s, s'.app.value.spec, foreign);
        assert Tracked(s', foreign) <==> Tracked(Step(o, s, EditHelmApp(s'.app.value.spec)), foreign);
      }
    }
  }

  /** A step keeps the invariant exactly when it is allowed. */
  lemma StepKeepsInvariantIff(o: Oracle, s: State, a: Action, foreign: set<string>)
    requires Invariant(s, foreign)
    ensures Invariant(Step(o, s, a), foreign) <==> Allowed(o, s, a, foreign)
  {
    StepTracksIff(o, s, a, foreign);
    StepSupervises(o, s, a);
  }

  /** The invariant holds in every state of a run exactly when every step of the run is allowed. */
  lemma {:induction false} RunsKeepInvariantIff(o: Oracle, s: State, actions: seq<Action>, foreign: set<string>)
    requires Invariant(s, foreign)
    ensures (forall k: nat | k <= |actions| :: Invariant(Run(o, s, actions[..k]), foreign)) <==>
            Disciplined(o, s, actions, foreign)
    decreases actions
  {
    assert actions[..0] == [];
    if actions != [] {
      var s1, rest := Step(o, s, actions[0]), actions[1..];
      StepKeepsInvariantIff(o, s, actions[0], foreign);
      forall k: nat | k <= |rest| ensures Run(o, s, actions[..k + 1]) == Run(o, s1, rest[..k]) {
        assert actions[..k + 1][1..] == rest[..k];
      }
      if Invariant(s1, foreign) {
        RunsKeepInvariantIff(o, s1, rest, foreign);
        forall k: nat | k <= |actions| && (forall j: nat | j <= |rest| :: Invariant(Run(o, s1, rest[..j]), foreign))
          ensures Invariant(Run(o, s, actions[..k]), foreign)
        {
          if k > 0 { assert Run(o, s, actions[..k - 1 + 1]) == Run(o, s1, rest[..k - 1]); }
        }
        forall j: nat | j <= |rest| && (forall k: nat | k <= |actions| :: Invariant(Run(o, s, actions[..k]), foreign))
          ensures Invariant(Run(o, s1, rest[..j]), foreign)
        {
          assert Invariant(Run(o, s, actions[..j + 1]), foreign);
        }
      } else {
        assert Run(o, s, actions[..0 + 1]) == Run(o, s1, rest[..0]) && rest[..0] == [];
        assert !Invariant(Run(o, s, actions[..1]), foreign);
      }
    }
  }

  /** Every state of every disciplined run satisfies the invariant. */
  lemma RunsKeepInvariant(o: Oracle, s: State, actions: seq<Action>, foreign: set<string>)
    requires Invariant(s, foreign) && Disciplined(o, s, actions, foreign)
    ensures Invariant(Run(o, s, actions), foreign)
  {
    RunsKeepInvariantIff(o, s, actions, foreign);
    assert actions[..|actions|] == actions;
  }

  /** From an empty cluster holding only foreign releases: a release the operator owns always has a
      HelmApp that holds its finalizer and names it, and once the IstioOperator is gone any managed
      HelmApp still owning one is on its way out. */
  lemma NoLeaks(o: Oracle, w: World, actions: seq<Action>, name: string)
    requires Disciplined(o, State(None, None, w), actions, w.releases.Keys)
    requires name in Run(o, State(None, None, w), actions).world.releases && name !in w.releases
    ensures var s := Run(o, State(None, None, w), actions);
      && s.app.Some? && s.app.value.finalizer
      && name in Names(s.app.value.spec.components) + Recorded(s.app.value)
      && (s.app.value.deleting ==> name in Recorded(s.app.value))
      && (s.iop.None? && s.app.value.managed ==> s.app.value.deleting)
  {
    RunsKeepInvariant(o, State(None, None, w), actions, w.releases.Keys);
    assert name in Run(o, State(None, None, w), actions).world.releases.Keys - w.releases.Keys;
  }
}
