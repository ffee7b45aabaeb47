/** The HelmApp reconciler as the program writes it, step by step, proved to compute the passes of HelmApp. */
module HelmAppController {
  import opened Prelude
  import opened Types
  import opened ClusterState
  import opened PhaseLaws
  import Helm
  import HelmApp

  /** The component list of a status: a slice, that is, an array with a length. */
  class StatusList {
    var items: array<ComponentStatus>
    var len: nat

    ghost predicate Valid()
      reads this
    {
      len <= items.Length
    }

    ghost function Contents(): seq<ComponentStatus>
      requires Valid()
      reads this, items
    {
      items[..len]
    }

    constructor (statuses: seq<ComponentStatus>)
      ensures Valid() && fresh(items) && Contents() == statuses
    {
      items := new ComponentStatus[|statuses|](i requires 0 <= i < |statuses| => statuses[i]);
      len := |statuses|;
      new;
      assert items[..len] == statuses;
    }

    method MarkFailed(i: nat)
      requires Valid() && i < len
      modifies items
      ensures Contents() == old(Contents())[i := HelmApp.MarkFailed(old(Contents())[i])]
    {
      items[i] := items[i].(status := FAILED_STATUS);
    }

    /** append(s[:i], s[i+1:]...): the entries after i move down one place, in the same array. */
    method RemoveAt(i: nat)
      requires Valid() && i < len
      modifies this`len, items
      ensures Valid() && Contents() == old(Contents())[..i] + old(Contents())[i + 1..]
    {
      ghost var was := Contents();
      for j := i to len - 1
        invariant len == old(len) && items == old(items)
        invariant forall k | 0 <= k < len :: items[k] == was[if i <= k < j then k + 1 else k]
      {
        items[j] := items[j + 1];
      }
      len := len - 1;
      assert items[..len] == was[..i] + was[i + 1..];
    }
  }

  /** The copy of the HelmApp a pass works on. */
  class HelmAppObject {
    const spec: Spec
    const deleting: bool
    var finalizer: bool
    var phase: Phase
    var components: StatusList?

    constructor (app: App)
      ensures spec == app.spec && deleting == app.deleting && finalizer == app.finalizer
      ensures components == null <==> app.status.None?
      ensures components != null ==> fresh(components) && fresh(components.items)
      ensures components != null ==> components.Valid() && components.Contents() == app.status.value.components
    {
      spec, deleting, finalizer := app.spec, app.deleting, app.finalizer;
      phase := if app.status.Some? then app.status.value.phase else UNKNOWN;
      if app.status.Some? {
        var list := new StatusList(app.status.value.components);
        components := list;
      } else {
        components := null;
      }
    }
  }

  /** The entries built so far, followed by what the remaining components add. */
  ghost function Continued(o: Oracle, spec: Spec, built: seq<ComponentStatus>, rest: seq<Component>, w: World)
    : (seq<ComponentStatus>, World)
    requires spec.repo.Some? || rest == []
  {
    var (more, w') := HelmApp.ReconcileComponents(o, spec, rest, w);
    (built + more, w')
  }

  lemma ComponentsStep(o: Oracle, spec: Spec, built: seq<ComponentStatus>, cs: seq<Component>, i: nat, w: World)
    requires i < |cs| && spec.repo.Some?
    ensures var run := HelmApp.ReconcileComponent(o, spec, cs[i], w);
      Continued(o, spec, built, cs[i..], w) == Continued(o, spec, built + [run.status], cs[i + 1..], run.world)
  {
    assert cs[i..][1..] == cs[i + 1..] && cs[i..][0] == cs[i];
    var run := HelmApp.ReconcileComponent(o, spec, cs[i], w);
    var more := HelmApp.ReconcileComponents(o, spec, cs[i + 1..], run.world).0;
    assert built + ([run.status] + more) == (built + [run.status]) + more;
  }

  /** The entries kept so far, followed by what sweeping the rest keeps. */
  ghost function Swept(o: Oracle, desired: set<string>, kept: seq<ComponentStatus>, rest: seq<ComponentStatus>,
                       w: World)
    : (seq<ComponentStatus>, World)
  {
    var (more, w') := HelmApp.Sweep(o, desired, rest, w);
    (kept + more, w')
  }

  lemma SweepStep(o: Oracle, desired: set<string>, kept: seq<ComponentStatus>, recorded: seq<ComponentStatus>,
                  i: nat, w: World)
    requires i < |recorded|
    ensures var r := recorded[i];
      var (gone, w1) := if r.name in desired || r.name == "" then (true, w)
                        else HelmApp.UninstallComponent(o, w, r.name);
      Swept(o, desired, kept, recorded[i..], w) ==
      Swept(o, desired, kept + (if gone then [] else [HelmApp.MarkFailed(r)]), recorded[i + 1..], w1)
  {
    assert recorded[i..][1..] == recorded[i + 1..] && recorded[i..][0] == recorded[i];
    var r := recorded[i];
    var (gone, w1) := if r.name in desired || r.name == "" then (true, w) else HelmApp.UninstallComponent(o, w, r.name);
    var m := if gone then [] else [HelmApp.MarkFailed(r)];
    var more := HelmApp.Sweep(o, desired, recorded[i + 1..], w1).0;
    assert kept + (m + more) == (kept + m) + more && [] + more == more;
  }

  /** The teardown of the entries before the cursor, followed by what was kept behind it. */
  ghost function Remaining(o: Oracle, front: seq<ComponentStatus>, kept: seq<ComponentStatus>, w: World)
    : (seq<ComponentStatus>, World)
  {
    var (rest, w') := HelmApp.Teardown(o, front, w);
    (rest + kept, w')
  }

  lemma TeardownStep(o: Oracle, recorded: seq<ComponentStatus>, i: nat, kept: seq<ComponentStatus>, w: World)
    requires i < |recorded|
    ensures var r := recorded[i];
      var (gone, w1) := if r.name == "" then (true, w) else HelmApp.UninstallComponent(o, w, r.name);
      Remaining(o, recorded[..i + 1], kept, w) ==
      Remaining(o, recorded[..i], (if gone then [] else [HelmApp.MarkFailed(r)]) + kept, w1)
  {
    assert recorded[..i + 1][..i] == recorded[..i] && recorded[..i + 1][i] == recorded[i];
    var r := recorded[i];
    var (gone, w1) := if r.name == "" then (true, w) else HelmApp.UninstallComponent(o, w, r.name);
    var front := HelmApp.Teardown(o, recorded[..i], w1).0;
    var m := if gone then [] else [HelmApp.MarkFailed(r)];
    assert front + [] == front && (front + m) + kept == front + (m + kept);
  }

  lemma SpliceStep(recorded: seq<ComponentStatus>, i: nat, kept: seq<ComponentStatus>)
    requires i < |recorded|
    ensures var l := recorded[..i + 1] + kept;
      && l[i] == recorded[i]
      && l[..i] + l[i + 1..] == recorded[..i] + ([] + kept)
      && l[i := HelmApp.MarkFailed(l[i])] == recorded[..i] + ([HelmApp.MarkFailed(recorded[i])] + kept)
  {
  }

  class HelmAppReconciler {
    const cluster: Cluster

    constructor (cluster: Cluster)
      ensures this.cluster == cluster
    {
      this.cluster := cluster;
    }

    /** Two calls to create a Helm client. */
    method OpenHelm() returns (ready: bool)
      modifies cluster`trace
      ensures (ready, cluster.World()) == HelmApp.OpenHelm(cluster.oracle, old(cluster.World()))
    {
      var r1 := cluster.Ask(NewConfig);
      if !r1.Ok? { return false; }
      var r2 := cluster.Ask(InitHelm);
      ready := r2.Ok?;
    }

    /** Whether the release is gone as far as the reconciler can tell. */
    method UninstallComponent(name: string) returns (gone: bool)
      modifies cluster`trace, cluster`releases
      ensures (gone, cluster.World()) == HelmApp.UninstallComponent(cluster.oracle, old(cluster.World()), name)
    {
      var release := cluster.RunGet(name);
      if release.LookupFailed? { return false; }
      if release.NotFound? { return true; }
      var reply := cluster.RunUninstall(name);
      gone := reply.Ok?;
    }

    /** Locate, load, look up, install or upgrade, and describe one component. */
    method ReconcileComponent(spec: Spec, c: Component) returns (status: ComponentStatus, failed: bool)
      requires spec.repo.Some?
      modifies cluster`trace, cluster`releases
      ensures HelmApp.ComponentRun(status, failed, cluster.World()) ==
              HelmApp.ReconcileComponent(cluster.oracle, spec, c, old(cluster.World()))
    {
      var values := HelmApp.EffectiveValues(spec, c);
      status := ComponentStatus(c.name, UNKNOWN_STATUS, None, []);
      var reply := cluster.Ask(LocateChart(c.chart));
      if !reply.Ok? { return status, true; }
      reply := cluster.Ask(LoadChart(c.chart));
      if !reply.Ok? { return status, true; }
      var chart := HelmApp.Located(cluster.oracle, spec, c);

      var release: Option<Release> := None;
      failed := false;
      var history := cluster.RunHistory(c.name);
      match history {
        case NotFound =>
          reply, release := cluster.Deploy(Install(c.name), c.name, chart, values);
          failed := !reply.Ok?;
        case Found(current) =>
          if HelmApp.HasConfigChanged(current, values, c.version) {
            reply, release := cluster.Deploy(Upgrade(c.name), c.name, chart, values);
            failed := !reply.Ok?;
          } else {
            release := Some(current);
          }
        case LookupFailed =>
          failed := true;
      }
      if release.Some? {
        reply := cluster.Ask(ParseManifest(c.name));
        status := status.(version := Some(release.value.revision), status := release.value.status);
        if reply.Ok? { status := status.(resources := release.value.resources); }
      }
    }

    /** One status entry for each component, in order. */
    method ReconcileComponents(spec: Spec) returns (statuses: seq<ComponentStatus>)
      requires spec.repo.Some? || spec.components == []
      modifies cluster`trace, cluster`releases
      ensures (statuses, cluster.World()) ==
              HelmApp.ReconcileComponents(cluster.oracle, spec, spec.components, old(cluster.World()))
    {
      statuses := [];
      ghost var cs, whole := spec.components,
        HelmApp.ReconcileComponents(cluster.oracle, spec, spec.components, cluster.World());
      assert cs[0..] == cs && [] + whole.0 == whole.0;
      for i := 0 to |spec.components|
        invariant whole == Continued(cluster.oracle, spec, statuses, cs[i..], cluster.World())
      {
        ComponentsStep(cluster.oracle, spec, statuses, cs, i, cluster.World());
        var status, _ := ReconcileComponent(spec, spec.components[i]);
        statuses := statuses + [status];
      }
      assert cs[|cs|..] == [] && statuses + [] == statuses;
    }

    /** Uninstall what is recorded but no longer desired; return the entries that could not be. */
    method Sweep(desired: set<string>, list: StatusList) returns (retained: seq<ComponentStatus>)
      requires list.Valid()
      modifies cluster`trace, cluster`releases
      ensures (retained, cluster.World()) ==
              HelmApp.Sweep(cluster.oracle, desired, list.Contents(), old(cluster.World()))
    {
      retained := [];
      ghost var recorded := list.Contents();
      ghost var whole := HelmApp.Sweep(cluster.oracle, desired, recorded, cluster.World());
      assert recorded[0..] == recorded && [] + whole.0 == whole.0;
      for i := 0 to list.len
        invariant list.Valid() && list.Contents() == recorded
        invariant whole == Swept(cluster.oracle, desired, retained, recorded[i..], cluster.World())
      {
        SweepStep(cluster.oracle, desired, retained, recorded, i, cluster.World());
        var existing := list.items[i];
        assert existing == recorded[i] && retained + [] == retained;
        if existing.name !in desired && existing.name != "" {
          var gone := UninstallComponent(existing.name);
          if !gone {
            retained := retained + [existing.(status := FAILED_STATUS)];
          }
        }
      }
      assert recorded[|recorded|..] == [] && retained + [] == retained;
    }

    /** One turn of the teardown: splice entry i out if it is nameless or gone, else mark it failed. */
    method VisitEntry(list: StatusList, i: nat) returns (clean: bool)
      requires list.Valid() && i < list.len
      modifies cluster`trace, cluster`releases, list`len, list.items
      ensures list.Valid()
      ensures var entry := old(list.Contents())[i];
        (clean, cluster.World()) ==
          if entry.name == "" then (true, old(cluster.World()))
          else HelmApp.UninstallComponent(cluster.oracle, old(cluster.World()), entry.name)
      ensures var before := old(list.Contents());
        list.Contents() == if clean then before[..i] + before[i + 1..]
                           else before[i := HelmApp.MarkFailed(before[i])]
    {
      var component := list.items[i];
      clean := true;
      if component.name != "" {
        clean := UninstallComponent(component.name);
        if !clean {
          list.MarkFailed(i);
        }
      }
      if clean {
        list.RemoveAt(i);
      }
    }

    /** Uninstall every recorded component, last to first, splicing out in place each one that is gone. */
    method Teardown(list: StatusList) returns (allUninstalled: bool)
      requires list.Valid()
      modifies cluster`trace, cluster`releases, list`len, list.items
      ensures list.Valid()
      ensures (list.Contents(), cluster.World()) ==
              HelmApp.Teardown(cluster.oracle, old(list.Contents()), old(cluster.World()))
      ensures allUninstalled <==> list.Contents() == []
    {
      allUninstalled := true;
      ghost var recorded, kept := list.Contents(), [];
      ghost var whole := HelmApp.Teardown(cluster.oracle, recorded, cluster.World());
      assert recorded[..list.len] == recorded && recorded + [] == recorded && whole.0 + [] == whole.0;
      for i := list.len downto 0
        invariant list.Valid() && list.items == old(list.items)
        invariant i <= |recorded| && list.Contents() == recorded[..i] + kept
        invariant allUninstalled <==> kept == []
        invariant whole == Remaining(cluster.oracle, recorded[..i], kept, cluster.World())
      {
        TeardownStep(cluster.oracle, recorded, i, kept, cluster.World());
        SpliceStep(recorded, i, kept);
        var gone := VisitEntry(list, i);
        kept := (if gone then [] else [HelmApp.MarkFailed(recorded[i])]) + kept;
        if !gone {
          allUninstalled := false;
        }
      }
      assert recorded[..0] == [] && recorded[..0] + kept == kept;
    }

    /** A pass over a deleted object. */
    method ReconcileDelete(helmApp: HelmAppObject) returns (outcome: Outcome)
      requires cluster.app.Some? && Copies(helmApp, cluster.app.value)
      modifies cluster, helmApp, helmApp.components,
               if helmApp.components == null then {} else {helmApp.components.items}
      ensures (outcome, cluster.Now()) == HelmApp.ReconcileDelete(cluster.oracle, old(cluster.Now()))
    {
      var ready := OpenHelm();
      if !ready { return Error; }
      if helmApp.components == null { return Panic; }
      var allUninstalled := Teardown(helmApp.components);
      var statuses := helmApp.components.items[..helmApp.components.len];
      helmApp.phase := CalculateOverallPhase(helmApp.deleting, statuses);
      var reply := cluster.UpdateStatus(Status(helmApp.phase, statuses));
      if !reply.Ok? { return Error; }
      if !allUninstalled { return Requeue; }
      helmApp.finalizer := false;
      reply := cluster.WriteApp(UpdateApp, None);
      outcome := if reply.Ok? then Done else Error;
    }

    /** A pass over a live object that has the finalizer. */
    method ReconcileLive(helmApp: HelmAppObject) returns (outcome: Outcome)
      requires cluster.app.Some? && Copies(helmApp, cluster.app.value)
      modifies cluster, helmApp
      ensures (outcome, cluster.Now()) == HelmApp.ReconcileLive(cluster.oracle, old(cluster.Now()))
    {
      var ready := OpenHelm();
      if !ready { return Error; }
      if helmApp.spec.repo.None? && helmApp.spec.components != [] { return Panic; }
      var desired := Names(helmApp.spec.components);
      var statuses := ReconcileComponents(helmApp.spec);
      if helmApp.components != null {
        var retained := Sweep(desired, helmApp.components);
        statuses := statuses + retained;
      } else {
        assert statuses + [] == statuses;
      }
      helmApp.components := new StatusList(statuses);
      helmApp.phase := CalculateOverallPhase(helmApp.deleting, statuses);
      var reply := cluster.UpdateStatus(Status(helmApp.phase, statuses));
      if !reply.Ok? { return Error; }
      outcome := if helmApp.phase == FAILED then RequeueAfter else Done;
    }

    ghost predicate Copies(helmApp: HelmAppObject, app: App)
      reads helmApp, helmApp.components, if helmApp.components == null then {} else {helmApp.components.items}
    {
      && helmApp.spec == app.spec && helmApp.deleting == app.deleting
      && (helmApp.components == null <==> app.status.None?)
      && (helmApp.components != null ==>
            helmApp.components.Valid() && helmApp.components.Contents() == app.status.value.components)
    }

    /** One pass. */
    method Reconcile() returns (outcome: Outcome)
      modifies cluster
      ensures (outcome, cluster.Now()) == HelmApp.Reconcile(cluster.oracle, old(cluster.Now()))
    {
      var reply := cluster.Ask(GetApp);
      if !reply.Ok? { return Error; }
      if cluster.app.None? { return Done; }
      var helmApp := new HelmAppObject(cluster.app.value);
      if helmApp.deleting {
        outcome := ReconcileDelete(helmApp);
        return;
      }
      if !helmApp.finalizer {
        helmApp.finalizer := true;
        reply := cluster.WriteApp(UpdateApp, Some(cluster.app.value.(finalizer := true)));
        if !reply.Ok? { return Error; }
      }
      outcome := ReconcileLive(helmApp);
    }
  }
}
