/** Deleting a HelmApp: when it ends, how many passes it takes, and what it leaves behind. */
module Deletion {
  import opened Prelude
  import opened Types
  import opened HelmApp
  import opened Removal
  import opened Passes
  import opened Protocol

  /** A deletion pass that does not let the object go has met a failed call, or a missing status. */
  lemma DeletePassCost(o: Oracle, s: State)
    requires s.app.Some? && s.app.value.status.Some? && ReconcileDelete(o, s).1.app.Some?
    ensures var s' := ReconcileDelete(o, s).1;
      Failures(o, |s.world.trace|, |s'.world.trace|) >= 1
  {
    var (ready, w0) := OpenHelm(o, s.world);
    if !ready {
      FailuresStep(o, |s.world.trace|, |w0.trace|);
    } else {
      var list := s.app.value.status.value.components;
      var (kept, w1) := Teardown(o, list, w0);
      TeardownEffect(o, list, w0);
      TeardownCost(o, list, w0);
      WindowHolds(o, |s.world.trace|, |w0.trace|, |w1.trace|, |ReconcileDelete(o, s).1.world.trace|);
      if kept == [] { LastWriteCost(o, s); }
    }
  }

  lemma LastWriteCost(o: Oracle, s: State)
    requires s.app.Some? && s.app.value.status.Some? && ReconcileDelete(o, s).1.app.Some?
    requires OpenHelm(o, s.world).0
    requires Teardown(o, s.app.value.status.value.components, OpenHelm(o, s.world).1).0 == []
    ensures var w1 := Teardown(o, s.app.value.status.value.components, OpenHelm(o, s.world).1).1;
      Failures(o, |w1.trace|, |ReconcileDelete(o, s).1.world.trace|) >= 1
  {
    var w1 := Teardown(o, s.app.value.status.value.components, OpenHelm(o, s.world).1).1;
    FailuresStep(o, |w1.trace|, |w1.trace| + 1);
    FailuresStep(o, |w1.trace|, |w1.trace| + 2);
  }

  lemma WindowHolds(o: Oracle, a: nat, b: nat, c: nat, d: nat)
    requires a <= b <= c <= d
    ensures Failures(o, a, d) >= Failures(o, b, c) + Failures(o, c, d)
  {
    FailuresSplit(o, a, b, d);
    FailuresSplit(o, b, c, d);
  }

  /** Each pass either lets a deleted object go or costs at least one failed call. */
  lemma PassCost(o: Oracle, s: State)
    requires s.app.Some? && s.app.value.deleting && s.app.value.status.Some?
    requires Reconcile(o, s).1.app.Some?
    ensures var s' := Reconcile(o, s).1;
      && s.world.trace <= s'.world.trace
      && Failures(o, |s.world.trace|, |s'.world.trace|) >= 1
      && s'.app.value.deleting && s'.app.value.status.Some?
  {
    PassUnfolded(o, s);
    var p, s' := Prepared(o, s), Reconcile(o, s).1;
    if Reconcile(o, s) == ReconcileDelete(o, p) {
      DeletePass(o, p);
      DeletePassCost(o, p);
      FailuresSplit(o, |s.world.trace|, |p.world.trace|, |s'.world.trace|);
    } else {
      FailuresStep(o, |s.world.trace|, |s'.world.trace|);
    }
  }

  /** n passes over a deleted object either let it go or meet at least n failed calls. */
  lemma {:induction false} RepeatCost(o: Oracle, s: State, n: nat)
    requires s.app.Some? && s.app.value.deleting && s.app.value.status.Some?
    ensures var s' := Repeat(o, s, n);
      s'.app.None? || (|s.world.trace| <= |s'.world.trace| && Failures(o, |s.world.trace|, |s'.world.trace|) >= n)
    decreases n
  {
    if n > 0 {
      var s1 := Reconcile(o, s).1;
      if s1.app.None? {
        NothingWithoutApp(o, s1, n - 1);
      } else {
        PassCost(o, s);
        RepeatCost(o, s1, n - 1);
        var s' := Repeat(o, s1, n - 1);
        if s'.app.Some? {
          FailuresSplit(o, |s.world.trace|, |s1.world.trace|, |s'.world.trace|);
        }
      }
    }
  }

  /** At most this many calls fail from now on. */
  ghost predicate FailsAtMost(o: Oracle, w: World, failures: nat) {
    forall upto: nat | |w.trace| <= upto :: Failures(o, |w.trace|, upto) <= failures
  }

  lemma FailsAtMostLater(o: Oracle, w: World, w': World, failures: nat)
    requires FailsAtMost(o, w, failures) && |w.trace| <= |w'.trace|
    ensures FailsAtMost(o, w', failures)
  {
    forall upto: nat | |w'.trace| <= upto ensures Failures(o, |w'.trace|, upto) <= failures {
      FailuresSplit(o, |w.trace|, |w'.trace|, upto);
    }
  }

  /** Without a status the pass panics and the object stays for good. */
  lemma {:induction false} StuckWithoutStatus(o: Oracle, s: State, n: nat)
    requires s.app.Some? && s.app.value.deleting && s.app.value.status.None?
    ensures Repeat(o, s, n).app == s.app && Repeat(o, s, n).world.releases == s.world.releases
    decreases n
  {
    if n > 0 { StuckWithoutStatus(o, Reconcile(o, s).1, n - 1); }
  }

  /** When at most F more calls fail, deletion is over after F + 1 passes exactly if the object had a
      status; without one it is never over. */
  lemma DeletionEndsIff(o: Oracle, s: State, failures: nat)
    requires s.app.Some? && s.app.value.deleting && FailsAtMost(o, s.world, failures)
    ensures Repeat(o, s, failures + 1).app.None? <==> s.app.value.status.Some?
    ensures (exists n: nat :: Repeat(o, s, n).app.None?) <==> s.app.value.status.Some?
  {
    if s.app.value.status.Some? {
      RepeatCost(o, s, failures + 1);
    } else {
      forall n: nat ensures Repeat(o, s, n).app.Some? { StuckWithoutStatus(o, s, n); }
    }
  }

  /** The store only shrinks, and only by recorded names. */
  lemma {:induction false} RepeatShrinks(o: Oracle, s: State, n: nat)
    requires s.app.Some? && s.app.value.deleting
    ensures Shrinks(s.world.releases, Repeat(o, s, n).world.releases, Recorded(s.app.value))
    decreases n
  {
    if n > 0 {
      var p, s1 := Prepared(o, s), Reconcile(o, s).1;
      PassUnfolded(o, s);
      DeletePass(o, p);
      DeleteRecordsNoMore(o, p);
      if s1.app.None? { NothingWithoutApp(o, s1, n - 1); } else { RepeatShrinks(o, s1, n - 1); }
    }
  }

  /** Deleting a HelmApp clears everything it owns exactly when its status is up to date at that moment. */
  lemma DeletionClearsIff(o: Oracle, s: State, foreign: set<string>, failures: nat)
    requires Tracked(s, foreign) && s.app.Some? && !s.app.value.deleting
    requires s.app.value.finalizer && s.app.value.status.Some? && FailsAtMost(o, s.world, failures)
    ensures var end := Repeat(o, Step(o, s, DeleteHelmApp), failures + 1);
      end.app.None? && (end.world.releases.Keys <= foreign <==> Synced(s, foreign))
  {
    var s1 := Step(o, s, DeleteHelmApp);
    var end := Repeat(o, s1, failures + 1);
    DeletionEndsIff(o, s1, failures);
    if Synced(s, foreign) {
      RepeatTracks(o, s1, foreign, failures + 1);
      assert forall n | n in end.world.releases.Keys :: n in end.world.releases.Keys - foreign || n in foreign;
    } else {
      var n :| n in s.world.releases.Keys - foreign && n !in Recorded(s.app.value);
      RepeatShrinks(o, s1, failures + 1);
      assert Find(end.world.releases, n) == Find(s.world.releases, n);
    }
  }

  lemma {:induction false} RepeatTracks(o: Oracle, s: State, foreign: set<string>, n: nat)
    requires Tracked(s, foreign)
    ensures Tracked(Repeat(o, s, n), foreign)
    decreases n
  {
    if n > 0 {
      HelmAppPassTracks(o, s, foreign);
      RepeatTracks(o, Reconcile(o, s).1, foreign, n - 1);
    }
  }

  /** A step that is not allowed loses a release that no number of passes ever removes: it changes the spec
      while the release is named in the old one alone, or deletes the object before the status names it. */
  lemma DisallowedLeaks(o: Oracle, s: State, a: Action, foreign: set<string>) returns (name: string)
    requires Invariant(s, foreign) && !Allowed(o, s, a, foreign)
    ensures name in s.world.releases && name !in foreign
    ensures forall n: nat ::
              Find(Repeat(o, Step(o, s, a), n).world.releases, name) == Find(s.world.releases, name)
  {
    var s1 := Step(o, s, a);
    OthersWrite(o, s, a);
    if s1.app.None? || s1.app.value.deleting {
      name :| name in s.world.releases.Keys - foreign && name !in Recorded(s.app.value);
      assert s1.app.Some?;
      forall n: nat ensures Find(Repeat(o, s1, n).world.releases, name) == Find(s.world.releases, name) {
        RepeatShrinks(o, s1, n);
      }
    } else {
      name :| name in s.world.releases && name !in foreign && name !in Recorded(s.app.value)
              && name !in Names(s1.app.value.spec.components);
      forall n: nat ensures Find(Repeat(o, s1, n).world.releases, name) == Find(s.world.releases, name) {
        UntrackedStays(o, s1, name, n);
      }
    }
  }
}
