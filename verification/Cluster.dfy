/** The world outside the reconcilers, as an object: the API server and Helm. */
module ClusterState {
  import opened Prelude
  import opened Values
  import opened Types
  import Helm
  import HelmApp

  class Cluster {
    const oracle: Oracle
    var iop: Option<Iop>
    var app: Option<App>
    var releases: Releases
    var trace: seq<Call>

    ghost function World(): World
      reads this
    {
      Types.World(releases, trace)
    }

    ghost function Now(): State
      reads this
    {
      State(iop, app, World())
    }

    constructor (oracle: Oracle, s: State)
      ensures this.oracle == oracle && Now() == s
    {
      this.oracle := oracle;
      iop, app := s.iop, s.app;
      releases, trace := s.world.releases, s.world.trace;
    }

    /** Any call at all: it is logged, and the oracle answers. */
    method Ask(c: Call) returns (r: Reply)
      modifies this`trace
      ensures (r, World()) == Helm.Ask(oracle, old(World()), c)
    {
      r := oracle.replies(|trace|);
      trace := trace + [c];
    }

    // ---- Helm ----

    method RunHistory(name: string) returns (r: Helm.Lookup)
      modifies this`trace
      ensures (r, World()) == Helm.RunHistory(oracle, old(World()), name)
    {
      var reply := Ask(History(name));
      if !reply.Ok? || name == "" { return Helm.LookupFailed; }
      if name in releases { return Helm.Found(releases[name]); }
      return Helm.NotFound;
    }

    method RunGet(name: string) returns (r: Helm.Lookup)
      modifies this`trace
      ensures (r, World()) == Helm.RunGet(oracle, old(World()), name)
    {
      var reply := Ask(GetRelease(name));
      if !reply.Ok? { return Helm.LookupFailed; }
      if name in releases { return Helm.Found(releases[name]); }
      return Helm.NotFound;
    }

    method Deploy(call: Call, name: string, chart: Chart, values: Fields) returns (reply: Reply, r: Option<Release>)
      modifies this`trace, this`releases
      ensures (reply, r, World()) == Helm.Deploy(oracle, old(World()), call, name, chart, values)
    {
      reply := Ask(call);
      if reply == Err(false) { return reply, None; }
      var revision := if name in releases then releases[name].revision + 1 else 1;
      var release := Release(chart, values, if reply.Ok? then DEPLOYED else FAILED_STATUS, revision,
                             oracle.rendered(chart, values));
      releases := releases[name := release];
      return reply, Some(release);
    }

    method RunUninstall(name: string) returns (reply: Reply)
      modifies this`trace, this`releases
      ensures (reply, World()) == Helm.RunUninstall(oracle, old(World()), name)
    {
      reply := Ask(Uninstall(name));
      if reply != Err(false) { releases := releases - {name}; }
    }

    // ---- The API server ----

    method UpdateStatus(status: Status) returns (reply: Reply)
      requires app.Some?
      modifies this`trace, this`app
      ensures (reply.Ok?, Now()) == HelmApp.WriteStatus(oracle, old(Now()), old(app.value), status)
      ensures app.Some? && World().releases == old(World().releases)
    {
      reply := Ask(Call.UpdateStatus);
      if Helm.Persisted(reply) { app := Some(app.value.(status := Some(status))); }
    }

    /** Create, update or delete the stored HelmApp. */
    method WriteApp(call: Call, after: Option<App>) returns (reply: Reply)
      modifies this`trace, this`app
      ensures (reply, World()) == Helm.Ask(oracle, old(World()), call)
      ensures app == if Helm.Persisted(reply) then after else old(app)
    {
      reply := Ask(call);
      if Helm.Persisted(reply) { app := after; }
    }

    method WriteIop(after: Option<Iop>) returns (reply: Reply)
      modifies this`trace, this`iop
      ensures (reply, World()) == Helm.Ask(oracle, old(World()), UpdateIop)
      ensures iop == if Helm.Persisted(reply) then after else old(iop)
    {
      reply := Ask(UpdateIop);
      if Helm.Persisted(reply) { iop := after; }
    }
  }
}
