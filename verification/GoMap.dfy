/** Go's mutable maps with shared sub-maps, and the loops over them, refining the merge of Values. */
module GoMap {
  import opened Prelude
  import opened Values

  datatype Entry = Scalar(v: Value) | Nested(m: MapObject)

  /** A map[string]any on the heap. Entries may be maps that other maps also hold. */
  class MapObject {
    var entries: map<string, Entry>
    ghost var model: Fields      // the nested value this map stands for
    ghost const depth: nat       // an upper bound on the nesting below it

    /** The model is what the entries say, and everything below lies in the heap, less deep. */
    ghost predicate Stands(heap: set<MapObject>)
      reads this, heap
    {
      && model.Keys == entries.Keys
      && forall k | k in entries :: Represents(entries[k], model[k], depth, heap)
    }

    constructor (ghost depth: nat)
      ensures entries == map[] && model == map[] && this.depth == depth
    {
      entries := map[];
      model := map[];
      this.depth := depth;
    }

    /** this[k] = e */
    method Set(k: string, e: Entry, ghost v: Value, ghost heap: set<MapObject>)
      requires this !in heap && Stands(heap) && Represents(e, v, depth, heap)
      modifies this
      ensures Stands(heap) && entries == old(entries)[k := e] && model == old(model)[k := v]
    {
      entries := entries[k := e];
      model := model[k := v];
    }

    /** for k, v := range source { this[k] = v }, in whatever order the keys come. */
    method Overlay(source: MapObject, ghost heap: set<MapObject>)
      requires WellFormed(heap) && source in heap && this !in heap && Stands(heap) && source.depth <= depth
      modifies this
      ensures Stands(heap) && model == old(model) + source.model
      ensures entries == old(entries) + source.entries
    {
      ghost var mine, theirs := model, source.model;
      var todo := source.entries.Keys;
      assert entries + (source.entries - todo) == entries && mine + (theirs - todo) == mine;
      while todo != {}
        invariant todo <= source.entries.Keys == theirs.Keys
        invariant Stands(heap)
        invariant model == mine + (theirs - todo)
        invariant entries == old(entries) + (source.entries - todo)
        decreases todo
      {
        var k :| k in todo;
        Set(k, source.entries[k], theirs[k], heap);
        TakeKey(mine, theirs, todo, k);
        TakeKey(old(entries), source.entries, todo, k);
        todo := todo - {k};
      }
      assert source.model - {} == source.model && source.entries - {} == source.entries;
    }
  }

  ghost predicate Represents(e: Entry, v: Value, depth: nat, heap: set<MapObject>)
    reads heap
  {
    match e
    case Scalar(x) => !x.Object? && v == x
    case Nested(m) => m in heap && m.depth < depth && v == Object(m.model)
  }

  /** A set of maps closed under nesting and free of cycles, as decoded JSON always is. */
  ghost predicate WellFormed(heap: set<MapObject>)
    reads heap
  {
    forall o | o in heap :: o.Stands(heap)
  }

  lemma TakeKey<V>(mine: map<string, V>, theirs: map<string, V>, todo: set<string>, k: string)
    requires k in todo && k in theirs
    ensures (mine + (theirs - todo))[k := theirs[k]] == mine + (theirs - (todo - {k}))
  {
  }

  /** What the merge puts under a key, given what is there already and what b holds. */
  ghost function MergedValue(present: Option<Value>, v: Value): Value {
    if v.Object? && present.Some? && present.value.Object? then Object(Merge(present.value.fields, v.fields)) else v
  }

  /** The merge of a and b with the keys in todo not yet taken from b. */
  ghost function Progress(a: Fields, b: Fields, todo: set<string>): Fields {
    map k | k in a.Keys + (b.Keys - todo) ::
      if k in b && k !in todo then MergedValue(Find(a, k), b[k]) else a[k]
  }

  lemma ProgressEnds(a: Fields, b: Fields)
    ensures Progress(a, b, b.Keys) == a && Progress(a, b, {}) == Merge(a, b)
  {
  }

  lemma ProgressStep(a: Fields, b: Fields, todo: set<string>, k: string)
    requires k in todo && k in b
    ensures var p := Progress(a, b, todo);
            Progress(a, b, todo - {k}) == p[k := MergedValue(Find(p, k), b[k])]
  {
  }

  /** The body of the loop over b: a map meeting a map is merged, anything else replaces. */
  method MergeKey(out: MapObject, k: string, v: Entry, ghost y: Value, ghost heap: set<MapObject>)
    returns (ghost heap': set<MapObject>)
    requires WellFormed(heap) && out !in heap && out.Stands(heap) && Represents(v, y, out.depth, heap)
    modifies out
    ensures heap <= heap' && fresh(heap' - heap) && WellFormed(heap') && out !in heap'
    ensures out.Stands(heap')
    ensures out.model == old(out.model)[k := MergedValue(Find(old(out.model), k), y)]
    decreases out.depth, 0
  {
    if v.Nested? && k in out.entries && out.entries[k].Nested? {
      var sub;
      sub, heap' := MergeValues(out.entries[k].m, v.m, heap);
      out.Set(k, Nested(sub), Object(sub.model), heap');
    } else {
      heap' := heap;
      out.Set(k, v, y, heap);
    }
  }

  /** The loop over b, in whatever order its keys come. */
  method MergeInto(out: MapObject, b: MapObject, ghost heap: set<MapObject>)
    returns (ghost heap': set<MapObject>)
    requires WellFormed(heap) && b in heap && out !in heap && out.Stands(heap) && b.depth <= out.depth
    modifies out
    ensures heap <= heap' && fresh(heap' - heap) && WellFormed(heap') && out !in heap'
    ensures out.Stands(heap') && out.model == Merge(old(out.model), b.model)
    decreases out.depth, 1
  {
    ghost var a := out.model;
    heap' := heap;
    var todo := b.entries.Keys;
    ProgressEnds(a, b.model);
    while todo != {}
      invariant todo <= b.entries.Keys
      invariant heap <= heap' && fresh(heap' - heap) && out !in heap' && WellFormed(heap')
      invariant out.Stands(heap') && out.model == Progress(a, b.model, todo)
      decreases todo
    {
      var k :| k in todo;
      ProgressStep(a, b.model, todo, k);
      heap' := MergeKey(out, k, b.entries[k], b.model[k], heap');
      todo := todo - {k};
    }
  }

  /** The recursive merge as the program writes it: a fresh map, one loop over each argument,
      sub-maps shared with the arguments wherever they are not merged. No map that existed before
      is in the modifies clause, so the arguments and everything below them stay as they are. */
  method MergeValues(a: MapObject, b: MapObject, ghost heap: set<MapObject>)
    returns (out: MapObject, ghost heap': set<MapObject>)
    requires WellFormed(heap) && a in heap && b in heap
    ensures fresh(out) && out in heap' && out.depth == if a.depth < b.depth then b.depth else a.depth
    ensures heap <= heap' && fresh(heap' - heap) && WellFormed(heap')
    ensures out.model == Merge(a.model, b.model)
    decreases if a.depth < b.depth then b.depth else a.depth, 2
  {
    out := new MapObject(if a.depth < b.depth then b.depth else a.depth);
    out.Overlay(a, heap);
    assert map[] + a.model == a.model;
    heap' := MergeInto(out, b, heap);
    heap' := heap' + {out};
  }
}
