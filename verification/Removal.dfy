/** What the two uninstall loops remove, keep and visit. */
module Removal {
  import opened Prelude
  import opened Types
  import opened Helm
  import opened HelmApp
  import opened Effects

  // ---- One uninstall ----

  /** Nothing but this release can go, and success means it is gone. */
  predicate RemovesOnly(before: World, after: World, name: string) {
    && before.trace <= after.trace
    && (after.releases == before.releases || after.releases == before.releases - {name})
  }

  lemma UninstallEffect(o: Oracle, w: World, name: string)
    ensures var (gone, w') := UninstallComponent(o, w, name);
      && RemovesOnly(w, w', name) && UninstallsOnly(w, w', {name}) && Shrinks(w.releases, w'.releases, {name})
      && (gone ==> name !in w'.releases)
      && (AllOk(o, w, w') ==> gone)
  {
    var w' := UninstallComponent(o, w, name).1;
    var n := |w.trace|;
    assert AllOk(o, w, w') ==> o.replies(n).Ok? && (|w'.trace| == n + 2 ==> o.replies(n + 1).Ok?);
  }

  /** The lookup comes first and a failed one ends it. A release that is there is uninstalled, and is gone
      unless that fails without effect; one that is not there counts as gone. */
  lemma UninstallExact(o: Oracle, w: World, name: string)
    ensures var n, (gone, w') := |w.trace|, UninstallComponent(o, w, name);
      var attempted := o.replies(n).Ok? && name in w.releases;
      && (gone <==> o.replies(n).Ok? && (name !in w.releases || o.replies(n + 1).Ok?))
      && w'.trace == w.trace + [GetRelease(name)] + (if attempted then [Uninstall(name)] else [])
      && w'.releases.Keys == w.releases.Keys - (if attempted && o.replies(n + 1) != Err(false) then {name} else {})
      && (forall k | k in w'.releases :: w'.releases[k] == w.releases[k])
  {
  }

  lemma UninstallCost(o: Oracle, w: World, name: string)
    ensures var (gone, w') := UninstallComponent(o, w, name);
      !gone ==> Failures(o, |w.trace|, |w'.trace|) >= 1
  {
    var n := |w.trace|;
    FailuresStep(o, n, n + 1);
    FailuresStep(o, n, n + 2);
  }

  lemma UninstallVisits(o: Oracle, w: World, name: string)
    ensures Visited(UninstallComponent(o, w, name).1.trace) == Visited(w.trace) + [name]
  {
    VisitedStep(w.trace, GetRelease(name));
    VisitedStep(RunGet(o, w, name).1.trace, Uninstall(name));
  }

  /** How many of the calls numbered from..to were answered with an error. */
  ghost function Failures(o: Oracle, from: nat, upto: nat): nat
    decreases upto
  {
    if upto <= from then 0 else Failures(o, from, upto - 1) + (if o.replies(upto - 1).Ok? then 0 else 1)
  }

  lemma FailuresStep(o: Oracle, from: nat, upto: nat)
    requires from < upto
    ensures Failures(o, from, upto) == Failures(o, from, upto - 1) + (if o.replies(upto - 1).Ok? then 0 else 1)
  {
  }

  lemma {:induction false} FailuresSplit(o: Oracle, from: nat, mid: nat, upto: nat)
    requires from <= mid <= upto
    ensures Failures(o, from, upto) == Failures(o, from, mid) + Failures(o, mid, upto)
    decreases upto
  {
    if mid < upto { FailuresSplit(o, from, mid, upto - 1); }
  }

  /** The release names looked up for removal, in the order they were visited. */
  function Visited(trace: seq<Call>): seq<string> {
    if trace == [] then [] else
    var last := trace[|trace| - 1];
    Visited(trace[..|trace| - 1]) + (if last.GetRelease? then [last.name] else [])
  }

  lemma VisitedStep(trace: seq<Call>, c: Call)
    ensures Visited(trace + [c]) == Visited(trace) + (if c.GetRelease? then [c.name] else [])
  {
    assert (trace + [c])[..|trace|] == trace;
  }

  /** Releases may go, but only named ones, and none comes or changes. */
  ghost predicate Shrinks(before: Releases, after: Releases, names: set<string>) {
    forall n :: Find(after, n) == Find(before, n) || (n in names && Find(after, n).None?)
  }

  lemma ShrinksCompose(a: Releases, b: Releases, c: Releases, m: set<string>, n: set<string>)
    requires Shrinks(a, b, m) && Shrinks(b, c, n)
    ensures Shrinks(a, c, m + n) && c.Keys <= b.Keys <= a.Keys
  {
    forall k | k in c ensures k in b { assert Find(c, k).Some?; }
    forall k | k in b ensures k in a { assert Find(b, k).Some?; }
  }

  // ---- Which entries survive ----

  /** The entries whose uninstall failed, in their original order, each marked failed. */
  function Survivors(recorded: seq<ComponentStatus>, fails: seq<bool>): seq<ComponentStatus>
    requires |recorded| == |fails|
  {
    if recorded == [] then []
    else (if fails[0] then [recorded[0].(status := FAILED_STATUS)] else []) + Survivors(recorded[1..], fails[1..])
  }

  lemma {:induction false} SurvivorsSnoc(recorded: seq<ComponentStatus>, fails: seq<bool>, s: ComponentStatus, f: bool)
    requires |recorded| == |fails|
    ensures Survivors(recorded + [s], fails + [f]) == Survivors(recorded, fails) + (if f then [MarkFailed(s)] else [])
  {
    if recorded == [] {
      assert Survivors([s][1..], [f][1..]) == [];
    } else {
      assert (recorded + [s])[1..] == recorded[1..] + [s] && (fails + [f])[1..] == fails[1..] + [f];
      SurvivorsSnoc(recorded[1..], fails[1..], s, f);
    }
  }

  lemma {:induction false} SurvivorsEmptyIff(recorded: seq<ComponentStatus>, fails: seq<bool>)
    requires |recorded| == |fails|
    ensures Survivors(recorded, fails) == [] <==> true !in fails
  {
    if recorded != [] { SurvivorsEmptyIff(recorded[1..], fails[1..]); }
  }

  // ---- The sweep of a live object ----

  /** Whether the uninstall of entry i failed, in the world the sweep reached it. */
  function SweepFails(o: Oracle, desired: set<string>, recorded: seq<ComponentStatus>, w: World): seq<bool> {
    seq(|recorded|, i requires 0 <= i < |recorded| =>
      recorded[i].name !in desired && recorded[i].name != "" &&
      !UninstallComponent(o, Sweep(o, desired, recorded[..i], w).1, recorded[i].name).0)
  }

  /** Sweeping one entry: nothing if it is desired or nameless, else one uninstall, whose failure keeps it. */
  lemma SweepOne(o: Oracle, desired: set<string>, s: ComponentStatus, w: World)
    ensures var (kept, w') := Sweep(o, desired, [s], w);
      var (gone, w1) := UninstallComponent(o, w, s.name);
      && (s.name in desired || s.name == "" ==> kept == [] && w' == w)
      && (s.name !in desired && s.name != "" ==>
            w' == w1 && kept == if gone then [] else [s.(status := FAILED_STATUS)])
  {
    assert [s][1..] == [];
  }

  /** Sweeping a list is sweeping its parts one after the other, first part first. */
  lemma {:induction false} SweepSplit(o: Oracle, desired: set<string>, a: seq<ComponentStatus>,
                                      b: seq<ComponentStatus>, w: World)
    ensures var (ra, wa) := Sweep(o, desired, a, w);
      var (rb, wb) := Sweep(o, desired, b, wa);
      Sweep(o, desired, a + b, w) == (ra + rb, wb)
    decreases a
  {
    if a == [] {
      assert a + b == b && [] + Sweep(o, desired, b, w).0 == Sweep(o, desired, b, w).0;
    } else {
      assert (a + b)[1..] == a[1..] + b;
      var skip := a[0].name in desired || a[0].name == "";
      var w1 := if skip then w else UninstallComponent(o, w, a[0].name).1;
      SweepSplit(o, desired, a[1..], b, w1);
      var (ra, wa) := Sweep(o, desired, a[1..], w1);
      var rb := Sweep(o, desired, b, wa).0;
      var m := if skip || UninstallComponent(o, w, a[0].name).0 then [] else [MarkFailed(a[0])];
      assert m + (ra + rb) == (m + ra) + rb;
    }
  }

  /** The sweep keeps exactly the survivors. */
  lemma {:induction false} SweepExact(o: Oracle, desired: set<string>, recorded: seq<ComponentStatus>, w: World)
    ensures Sweep(o, desired, recorded, w).0 == Survivors(recorded, SweepFails(o, desired, recorded, w))
    decreases recorded
  {
    if recorded != [] {
      var init, last := recorded[..|recorded| - 1], recorded[|recorded| - 1];
      var f, fi := SweepFails(o, desired, recorded, w), SweepFails(o, desired, init, w);
      assert recorded == init + [last];
      SweepExact(o, desired, init, w);
      SweepSplit(o, desired, init, [last], w);
      assert [last][1..] == [];
      forall i | 0 <= i < |init| ensures f[i] == fi[i] { assert recorded[..i] == init[..i]; }
      assert f == fi + [f[|init|]];
      SurvivorsSnoc(init, fi, last, f[|init|]);
    }
  }

  lemma {:induction false} SweepEffect(o: Oracle, desired: set<string>, recorded: seq<ComponentStatus>, w: World)
    ensures var (kept, w') := Sweep(o, desired, recorded, w);
      var names := StatusNames(recorded) - desired - {""};
      && UninstallsOnly(w, w', names) && Shrinks(w.releases, w'.releases, names)
      && StatusNames(kept) <= names
      && (forall s | s in kept :: s.status == FAILED_STATUS)
      && w'.releases.Keys * names <= StatusNames(kept)
      && (AllOk(o, w, w') ==> kept == [])
    decreases recorded
  {
    if recorded != [] {
      var r, rest := recorded[0], recorded[1..];
      assert recorded == [r] + rest;
      assert StatusNames(recorded) == {r.name} + StatusNames(rest);
      if r.name in desired || r.name == "" {
        SweepEffect(o, desired, rest, w);
      } else {
        UninstallEffect(o, w, r.name);
        var (gone, w1) := UninstallComponent(o, w, r.name);
        SweepEffect(o, desired, rest, w1);
        var (kept, w') := Sweep(o, desired, recorded, w);
        var tail := Sweep(o, desired, rest, w1).0;
        assert kept == (if gone then [] else [MarkFailed(r)]) + tail;
        assert StatusNames(kept) == (if gone then {} else {r.name}) + StatusNames(tail);
        ShrinksCompose(w.releases, w1.releases, w'.releases, {r.name}, StatusNames(rest) - desired - {""});
      }
    }
  }

  // ---- The teardown of a deleted object ----

  /** Tearing down a list is tearing down its parts one after the other, last part first. */
  lemma {:induction false} TeardownSplit(o: Oracle, a: seq<ComponentStatus>, b: seq<ComponentStatus>, w: World)
    ensures var (kb, wb) := Teardown(o, b, w);
      var (ka, wa) := Teardown(o, a, wb);
      Teardown(o, a + b, w) == (ka + kb, wa)
    decreases b
  {
    if b == [] {
      var ka := Teardown(o, a, w).0;
      assert a + b == a && ka + [] == ka;
    } else {
      var last, rest := b[|b| - 1], b[..|b| - 1];
      assert (a + b)[..|a + b| - 1] == a + rest && (a + b)[|a + b| - 1] == last;
      var (gone, w1) := UninstallComponent(o, w, last.name);
      TeardownSplit(o, a, rest, if last.name == "" then w else w1);
      if last.name != "" {
        var (kr, wr) := Teardown(o, rest, w1);
        var ka := Teardown(o, a, wr).0;
        var m := if gone then [] else [MarkFailed(last)];
        assert (ka + kr) + m == ka + (kr + m);
      }
    }
  }

  /** Whether the uninstall of entry i failed, in the world left by the entries after it. */
  function TeardownFails(o: Oracle, recorded: seq<ComponentStatus>, w: World): seq<bool> {
    seq(|recorded|, i requires 0 <= i < |recorded| =>
      recorded[i].name != "" &&
      !UninstallComponent(o, Teardown(o, recorded[i + 1..], w).1, recorded[i].name).0)
  }

  /** Tearing down one entry: it is dropped if it is nameless, else one uninstall, whose failure keeps it. */
  lemma TeardownOne(o: Oracle, s: ComponentStatus, w: World)
    ensures var (kept, w') := Teardown(o, [s], w);
      var (gone, w1) := UninstallComponent(o, w, s.name);
      && (s.name == "" ==> kept == [] && w' == w)
      && (s.name != "" ==> w' == w1 && kept == if gone then [] else [s.(status := FAILED_STATUS)])
  {
    assert [s][..0] == [];
  }

  lemma TeardownFailsTail(o: Oracle, recorded: seq<ComponentStatus>, w: World)
    requires recorded != []
    ensures TeardownFails(o, recorded, w)[1..] == TeardownFails(o, recorded[1..], w)
  {
    var rest := recorded[1..];
    forall i | 0 <= i < |rest| ensures TeardownFails(o, recorded, w)[i + 1] == TeardownFails(o, rest, w)[i] {
      assert recorded[i + 2..] == rest[i + 1..];
    }
  }

  /** The teardown keeps exactly the survivors. */
  lemma {:induction false} TeardownExact(o: Oracle, recorded: seq<ComponentStatus>, w: World)
    ensures Teardown(o, recorded, w).0 == Survivors(recorded, TeardownFails(o, recorded, w))
    decreases recorded
  {
    if recorded != [] {
      var first, rest := recorded[0], recorded[1..];
      assert recorded == [first] + rest;
      TeardownExact(o, rest, w);
      TeardownFailsTail(o, recorded, w);
      TeardownSplit(o, [first], rest, w);
      TeardownOne(o, first, Teardown(o, rest, w).1);
    }
  }

  function Reverse(names: seq<string>): seq<string> {
    if names == [] then [] else [names[|names| - 1]] + Reverse(names[..|names| - 1])
  }

  function NonEmptyNames(recorded: seq<ComponentStatus>): seq<string> {
    if recorded == [] then [] else
    var last := recorded[|recorded| - 1];
    NonEmptyNames(recorded[..|recorded| - 1]) + (if last.name == "" then [] else [last.name])
  }

  /** Every named entry is visited exactly once, last to first. */
  lemma {:induction false} TeardownVisits(o: Oracle, recorded: seq<ComponentStatus>, w: World)
    ensures Visited(Teardown(o, recorded, w).1.trace) == Visited(w.trace) + Reverse(NonEmptyNames(recorded))
    decreases recorded
  {
    if recorded != [] {
      var last, rest := recorded[|recorded| - 1], recorded[..|recorded| - 1];
      if last.name == "" {
        TeardownVisits(o, rest, w);
        assert NonEmptyNames(recorded) == NonEmptyNames(rest);
      } else {
        UninstallVisits(o, w, last.name);
        TeardownVisits(o, rest, UninstallComponent(o, w, last.name).1);
        var all := NonEmptyNames(recorded);
        assert all == NonEmptyNames(rest) + [last.name] && all[..|all| - 1] == NonEmptyNames(rest);
      }
    }
  }

  lemma {:induction false} TeardownEffect(o: Oracle, recorded: seq<ComponentStatus>, w: World)
    ensures var (kept, w') := Teardown(o, recorded, w);
      var names := StatusNames(recorded) - {""};
      && UninstallsOnly(w, w', names) && Shrinks(w.releases, w'.releases, names)
      && StatusNames(kept) <= names
      && (forall s | s in kept :: s.status == FAILED_STATUS)
      && w'.releases.Keys * names <= StatusNames(kept)
    decreases recorded
  {
    if recorded != [] {
      var last, rest := recorded[|recorded| - 1], recorded[..|recorded| - 1];
      assert recorded == rest + [last];
      assert StatusNames(recorded) == {last.name} + StatusNames(rest);
      if last.name == "" {
        TeardownEffect(o, rest, w);
      } else {
        UninstallEffect(o, w, last.name);
        var (gone, w1) := UninstallComponent(o, w, last.name);
        TeardownEffect(o, rest, w1);
        var (kept, w') := Teardown(o, recorded, w);
        var front := Teardown(o, rest, w1).0;
        assert kept == front + (if gone then [] else [MarkFailed(last)]);
        assert StatusNames(kept) == (if gone then {} else {last.name}) + StatusNames(front);
        ShrinksCompose(w.releases, w1.releases, w'.releases, {last.name}, StatusNames(rest) - {""});
      }
    }
  }

  /** Every entry that is kept has cost a failed call. */
  lemma {:induction false} TeardownCost(o: Oracle, recorded: seq<ComponentStatus>, w: World)
    ensures var (kept, w') := Teardown(o, recorded, w);
      |kept| <= Failures(o, |w.trace|, |w'.trace|)
    decreases recorded
  {
    if recorded != [] {
      var last, rest := recorded[|recorded| - 1], recorded[..|recorded| - 1];
      if last.name == "" {
        TeardownCost(o, rest, w);
      } else {
        var w1 := UninstallComponent(o, w, last.name).1;
        UninstallEffect(o, w, last.name);
        UninstallCost(o, w, last.name);
        TeardownCost(o, rest, w1);
        TeardownEffect(o, rest, w1);
        FailuresSplit(o, |w.trace|, |w1.trace|, |Teardown(o, recorded, w).1.trace|);
      }
    }
  }
}
