/** Helm values: nested JSON-like maps, their deep merge, and the laws of that merge. */
module Values {
  import opened Prelude

  type Fields = map<string, Value>

  datatype Value =
    | Null
    | Bool(b: bool)
    | Number(n: real)
    | Text(s: string)
    | List(items: seq<Value>)
    | Object(fields: Fields)

  /** Deep merge with b taking precedence: two maps at the same key merge, anything else in b wins. */
  function Merge(a: Fields, b: Fields): Fields
    decreases Object(b)
  {
    map k | k in a.Keys + b.Keys ::
      if k !in b then a[k]
      else if k in a && a[k].Object? && b[k].Object? then Object(Merge(a[k].fields, b[k].fields))
      else b[k]
  }

  /** What a value holds at a path of keys. */
  function At(v: Value, path: seq<string>): Option<Value>
    decreases path
  {
    if path == [] then Some(v)
    else if v.Object? && path[0] in v.fields then At(v.fields[path[0]], path[1..])
    else None
  }

  predicate MapAt(m: Fields, path: seq<string>) {
    var x := At(Object(m), path);
    x.Some? && x.value.Object?
  }

  predicate LeafAt(m: Fields, path: seq<string>) {
    var x := At(Object(m), path);
    x.Some? && !x.value.Object?
  }

  /** Some proper prefix of the path is a value of m that is not a map. */
  predicate CutOff(m: Fields, path: seq<string>) {
    exists i | 0 <= i < |path| :: LeafAt(m, path[..i])
  }

  lemma CutOffStep(m: Fields, path: seq<string>)
    requires path != [] && path[0] in m
    ensures m[path[0]].Object? ==> (CutOff(m, path) <==> CutOff(m[path[0]].fields, path[1..]))
    ensures !m[path[0]].Object? ==> (CutOff(m, path) <==> |path| > 1)
  {
    var k, rest := path[0], path[1..];
    assert path[..0] == [];
    forall i | 0 < i <= |path|
      ensures At(Object(m), path[..i]) == At(m[k], rest[..i - 1])
    {
      assert path[..i][0] == k && path[..i][1..] == rest[..i - 1];
    }
    if m[k].Object? {
      if CutOff(m, path) {
        var i :| 0 <= i < |path| && LeafAt(m, path[..i]);
        assert LeafAt(m[k].fields, rest[..i - 1]);
      }
      if CutOff(m[k].fields, rest) {
        var i :| 0 <= i < |rest| && LeafAt(m[k].fields, rest[..i]);
        assert LeafAt(m, path[..i + 1]);
      }
    } else {
      if |path| > 1 { assert rest[..0] == [] && LeafAt(m, path[..1]); }
    }
  }

  lemma CutOffMissing(m: Fields, path: seq<string>)
    requires path != [] && path[0] !in m
    ensures !CutOff(m, path) && At(Object(m), path) == None
  {
    forall i | 0 <= i < |path| ensures !LeafAt(m, path[..i]) {
      if i > 0 { assert path[..i][0] == path[0]; }
    }
  }

  /** What the merge holds at any path, from what a and b hold there. */
  function Expected(a: Fields, b: Fields, path: seq<string>): Option<Value> {
    var x, y := At(Object(a), path), At(Object(b), path);
    if LeafAt(b, path) then y
    else if y.None? then (if CutOff(b, path) then None else x)
    else if MapAt(a, path) then Some(Object(Merge(x.value.fields, y.value.fields)))
    else y
  }

  /** Path semantics of the deep merge, at every path of every pair of maps. */
  lemma {:induction false} MergeAtPath(a: Fields, b: Fields, path: seq<string>)
    ensures At(Object(Merge(a, b)), path) == Expected(a, b, path)
    decreases path
  {
    if path != [] {
      var k, rest := path[0], path[1..];
      if k in b {
        CutOffStep(b, path);
        if b[k].Object? && k in a && a[k].Object? {
          MergeAtPath(a[k].fields, b[k].fields, rest);
        } else if b[k].Object? {
          assert k in a ==> At(Object(a), path) == At(a[k], rest);
          assert At(Object(Merge(a, b)), path) == At(b[k], rest);
        }
      } else {
        CutOffMissing(b, path);
      }
    }
  }

  // ---- The laws of the merge ----

  lemma MergeEmpty(a: Fields)
    ensures Merge(a, map[]) == a && Merge(map[], a) == a
  {
  }

  lemma {:induction false} MergeSelf(a: Fields)
    ensures Merge(a, a) == a
    decreases Object(a)
  {
    forall k | k in a && a[k].Object? ensures Merge(a[k].fields, a[k].fields) == a[k].fields {
      MergeSelf(a[k].fields);
    }
  }

  /** Every key of a is overridden or refined by c, at every nesting level where both hold maps. */
  predicate Covers(c: Fields, a: Fields)
    decreases Object(a)
  {
    forall k | k in a ::
      k in c && (a[k].Object? && c[k].Object? ==> Covers(c[k].fields, a[k].fields))
  }

  /** a disappears under c exactly when c covers it. */
  lemma {:induction false} AbsorbedIffCovered(a: Fields, c: Fields)
    ensures Merge(a, c) == c <==> Covers(c, a)
    decreases Object(a)
  {
    forall k | k in a && k in c && a[k].Object? && c[k].Object?
      ensures Merge(a[k].fields, c[k].fields) == c[k].fields <==> Covers(c[k].fields, a[k].fields)
    {
      AbsorbedIffCovered(a[k].fields, c[k].fields);
    }
    var m := Merge(a, c);
    if m == c {
      forall k | k in a ensures k in c && (a[k].Object? && c[k].Object? ==> Covers(c[k].fields, a[k].fields)) {
        assert k in m;
      }
    }
    if Covers(c, a) {
      assert m.Keys == c.Keys;
      assert forall k | k in c :: m[k] == c[k];
    }
  }

  lemma {:induction false} CoversMerged(a: Fields, b: Fields)
    ensures Covers(Merge(a, b), a) && Covers(Merge(a, b), b)
    decreases Object(b)
  {
    var m := Merge(a, b);
    forall k | k in a && a[k].Object? && m[k].Object? ensures Covers(m[k].fields, a[k].fields) {
      if k in b {
        CoversMerged(a[k].fields, b[k].fields);
      } else {
        MergeSelf(a[k].fields);
        AbsorbedIffCovered(a[k].fields, a[k].fields);
      }
    }
    forall k | k in b && b[k].Object? ensures Covers(m[k].fields, b[k].fields) {
      if k in a && a[k].Object? {
        CoversMerged(a[k].fields, b[k].fields);
      } else {
        MergeSelf(b[k].fields);
        AbsorbedIffCovered(b[k].fields, b[k].fields);
      }
    }
  }

  /** Merging the defaults in again changes nothing. */
  lemma MergeDefaultsAgain(a: Fields, b: Fields)
    ensures Merge(a, Merge(a, b)) == Merge(a, b)
  {
    CoversMerged(a, b);
    AbsorbedIffCovered(a, Merge(a, b));
  }

  /** Merging the overrides in again changes nothing. */
  lemma {:induction false} MergeOverridesAgain(a: Fields, b: Fields)
    ensures Merge(Merge(a, b), b) == Merge(a, b)
    decreases Object(b)
  {
    var m := Merge(a, b);
    forall k | k in b && b[k].Object? ensures Merge(m[k].fields, b[k].fields) == m[k].fields {
      if k in a && a[k].Object? {
        MergeOverridesAgain(a[k].fields, b[k].fields);
      } else {
        MergeSelf(b[k].fields);
      }
    }
    assert Merge(m, b).Keys == m.Keys;
  }

  // ---- When the merge is associative ----

  /** b hides a map of a with a plain value, and c puts a map back there. */
  predicate Resurrects(a: Fields, b: Fields, c: Fields, path: seq<string>) {
    MapAt(a, path) && LeafAt(b, path) && MapAt(c, path)
  }

  /** At every such path, c covers what a held. */
  ghost predicate CoveredWhereResurrected(a: Fields, b: Fields, c: Fields) {
    forall path | Resurrects(a, b, c, path) ::
      Covers(At(Object(c), path).value.fields, At(Object(a), path).value.fields)
  }

  lemma CoveredBelow(a: Fields, b: Fields, c: Fields, k: string)
    requires k in a && k in b && k in c && a[k].Object? && b[k].Object? && c[k].Object?
    requires CoveredWhereResurrected(a, b, c)
    ensures CoveredWhereResurrected(a[k].fields, b[k].fields, c[k].fields)
  {
    var a', b', c' := a[k].fields, b[k].fields, c[k].fields;
    forall path | Resurrects(a', b', c', path)
      ensures Covers(At(Object(c'), path).value.fields, At(Object(a'), path).value.fields)
    {
      var whole := [k] + path;
      assert whole[1..] == path;
      assert Resurrects(a, b, c, whole);
    }
  }

  /** Grouping matters exactly where b hides a map of a and c brings back one that does not cover it. */
  lemma {:induction false} AssociativeIff(a: Fields, b: Fields, c: Fields)
    ensures Merge(Merge(a, b), c) == Merge(a, Merge(b, c)) <==> CoveredWhereResurrected(a, b, c)
    decreases Object(a)
  {
    if CoveredWhereResurrected(a, b, c) {
      AssociativeIfCovered(a, b, c);
    }
    if Merge(Merge(a, b), c) == Merge(a, Merge(b, c)) {
      forall path | Resurrects(a, b, c, path)
        ensures Covers(At(Object(c), path).value.fields, At(Object(a), path).value.fields)
      {
        CoveredIfAssociative(a, b, c, path);
      }
    }
  }

  lemma {:induction false} AssociativeIfCovered(a: Fields, b: Fields, c: Fields)
    requires CoveredWhereResurrected(a, b, c)
    ensures Merge(Merge(a, b), c) == Merge(a, Merge(b, c))
    decreases Object(a), 1
  {
    var l, r := Merge(Merge(a, b), c), Merge(a, Merge(b, c));
    forall k | k in l ensures l[k] == r[k] {
      AssociativeAtKey(a, b, c, k);
    }
  }

  lemma {:induction false} AssociativeAtKey(a: Fields, b: Fields, c: Fields, k: string)
    requires CoveredWhereResurrected(a, b, c)
    requires k in a || k in b || k in c
    ensures Merge(Merge(a, b), c)[k] == Merge(a, Merge(b, c))[k]
    decreases Object(a), 0
  {
    if !(k in a && k in b && k in c && a[k].Object? && c[k].Object?) {
    } else if b[k].Object? {
      CoveredBelow(a, b, c, k);
      AssociativeIfCovered(a[k].fields, b[k].fields, c[k].fields);
    } else {
      assert At(Object(a), [k]) == At(a[k], [k][1..]) && At(Object(c), [k]) == At(c[k], [k][1..]);
      assert At(Object(b), [k]) == At(b[k], [k][1..]) && [k][1..] == [];
      assert Resurrects(a, b, c, [k]);
      AbsorbedIffCovered(a[k].fields, c[k].fields);
    }
  }

  lemma {:induction false} CoveredIfAssociative(a: Fields, b: Fields, c: Fields, path: seq<string>)
    requires Merge(Merge(a, b), c) == Merge(a, Merge(b, c))
    requires Resurrects(a, b, c, path)
    ensures Covers(At(Object(c), path).value.fields, At(Object(a), path).value.fields)
    decreases path
  {
    var k, rest := path[0], path[1..];
    assert At(Object(a), path) == At(a[k], rest) && At(Object(c), path) == At(c[k], rest);
    assert At(Object(b), path) == At(b[k], rest);
    var l, r := Merge(Merge(a, b), c), Merge(a, Merge(b, c));
    assert l[k] == r[k];
    if b[k].Object? {
      CoveredIfAssociative(a[k].fields, b[k].fields, c[k].fields, rest);
    } else {
      assert rest == [];
      AbsorbedIffCovered(a[k].fields, c[k].fields);
    }
  }

  /** In particular, no plain value of b between two maps is enough. */
  lemma AssociativeWithoutHiding(a: Fields, b: Fields, c: Fields)
    requires forall path :: !Resurrects(a, b, c, path)
    ensures Merge(Merge(a, b), c) == Merge(a, Merge(b, c))
  {
    AssociativeIff(a, b, c);
  }

  /** Without that condition grouping matters: the hidden key x comes back in one order only. */
  lemma NotAssociative()
    ensures
      var a: Fields := map["k" := Object(map["x" := Null])];
      var b: Fields := map["k" := Null];
      var c: Fields := map["k" := Object(map[])];
      Merge(Merge(a, b), c) != Merge(a, Merge(b, c))
  {
    var a: Fields := map["k" := Object(map["x" := Null])];
    var b: Fields := map["k" := Null];
    var c: Fields := map["k" := Object(map[])];
    assert Merge(Merge(a, b), c)["k"] == Object(map[]);
    assert "x" in Merge(a, Merge(b, c))["k"].fields;
  }

  // ---- The shallow overlay used for the mesh configuration ----

  /** Overwriting key by key agrees with the deep merge exactly when no map on the left
      holds anything that the map replacing it does not cover. */
  lemma OverlayIsMergeIff(a: Fields, b: Fields)
    ensures a + b == Merge(a, b) <==>
      forall k | k in a && k in b && a[k].Object? && b[k].Object? :: Covers(b[k].fields, a[k].fields)
  {
    var m := Merge(a, b);
    assert (a + b).Keys == m.Keys;
    forall k | k in a && k in b && a[k].Object? && b[k].Object?
      ensures (a + b)[k] == m[k] <==> Covers(b[k].fields, a[k].fields)
    {
      AbsorbedIffCovered(a[k].fields, b[k].fields);
    }
    if forall k | k in a && k in b && a[k].Object? && b[k].Object? :: Covers(b[k].fields, a[k].fields) {
      assert forall k | k in m :: (a + b)[k] == m[k];
    }
  }
}
