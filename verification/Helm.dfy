/** Helm and the API server as the reconcilers see them: each call is logged and answered by the oracle. */
module Helm {
  import opened Prelude
  import opened Values
  import opened Types

  function Ask(o: Oracle, w: World, c: Call): (Reply, World) {
    (o.replies(|w.trace|), World(w.releases, w.trace + [c]))
  }

  datatype Lookup = Found(release: Release) | NotFound | LookupFailed

  /** The current release of a name. Helm refuses the empty name. */
  function RunHistory(o: Oracle, w: World, name: string): (Lookup, World) {
    var (reply, w') := Ask(o, w, History(name));
    (if !reply.Ok? || name == "" then LookupFailed
     else if name in w.releases then Found(w.releases[name])
     else NotFound, w')
  }

  function RunGet(o: Oracle, w: World, name: string): (Lookup, World) {
    var (reply, w') := Ask(o, w, GetRelease(name));
    (if !reply.Ok? then LookupFailed
     else if name in w.releases then Found(w.releases[name])
     else NotFound, w')
  }

  function NextRevision(releases: Releases, name: string): nat {
    if name in releases then releases[name].revision + 1 else 1
  }

  /** Install or upgrade. Success records the request as deployed. An error leaves the store alone
      and returns no release, or records the request as failed and returns that. */
  function Deploy(o: Oracle, w: World, call: Call, name: string, chart: Chart, values: Fields)
    : (Reply, Option<Release>, World)
  {
    var (reply, w') := Ask(o, w, call);
    var status := if reply.Ok? then DEPLOYED else FAILED_STATUS;
    var release := Release(chart, values, status, NextRevision(w.releases, name), o.rendered(chart, values));
    if reply == Err(false) then (reply, None, w')
    else (reply, Some(release), w'.(releases := w.releases[name := release]))
  }

  /** Uninstall. An error may come after the release has gone. */
  function RunUninstall(o: Oracle, w: World, name: string): (Reply, World) {
    var (reply, w') := Ask(o, w, Uninstall(name));
    (reply, if reply == Err(false) then w' else w'.(releases := w.releases - {name}))
  }

  /** A write to the API server took effect, whatever it answered. */
  predicate Persisted(r: Reply) {
    r.Ok? || r.applied
  }

  /** The first so many of these calls have been made, one after the other until the first failure. */
  predicate MadeUntilFailure(o: Oracle, before: World, after: World, plan: seq<Call>) {
    var n, k := |before.trace|, |after.trace| - |before.trace|;
    && 0 <= k <= |plan| && after.trace == before.trace + plan[..k]
    && (forall i: nat | n <= i < n + k - 1 :: o.replies(i).Ok?)
    && (k < |plan| ==> k > 0 && !o.replies(n + k - 1).Ok?)
  }

  /** Between two worlds the call was made, and took effect. */
  ghost predicate Took(o: Oracle, before: World, after: World, c: Call) {
    exists i: nat :: |before.trace| <= i < |after.trace| && after.trace[i] == c && o.replies(i) != Err(false)
  }
}
