/** Folding configuration layers from low to high priority
    (crates/config/src/loader.rs, crates/config/src/runtime.rs). */
module Layers {
  import opened Values
  import opened Merge

  const EMPTY_TABLE := Table(map[])

  // ----- folding and looking up -----

  /** All layers merged, lowest first. */
  function Folded(layers: seq<Value>): Value
    requires layers != []
  {
    if |layers| == 1 then layers[0]
    else Merged(Folded(layers[..|layers| - 1]), layers[|layers| - 1])
  }

  /** The value at a path of table keys. */
  function At(v: Value, path: seq<string>): Option<Value> {
    if path == [] then Some(v)
    else if v.Table? && path[0] in v.entries then At(v.entries[path[0]], path[1..])
    else None
  }

  /** The layers from the last non-table on (exclusive): what a table in the fold is made of. */
  function TrailingTables(layers: seq<Value>): seq<Value> {
    if layers == [] || !layers[|layers| - 1].Table? then []
    else TrailingTables(layers[..|layers| - 1]) + [layers[|layers| - 1]]
  }

  function TrailingArrays(layers: seq<Value>): seq<Value> {
    if layers == [] || !layers[|layers| - 1].Array? then []
    else TrailingArrays(layers[..|layers| - 1]) + [layers[|layers| - 1]]
  }

  /** The entries the given tables have for `key`, in order. */
  function Children(tables: seq<Value>, key: string): seq<Value> {
    if tables == [] then []
    else
      var front, last := Children(tables[..|tables| - 1], key), tables[|tables| - 1];
      if last.Table? && key in last.entries then front + [last.entries[key]] else front
  }

  /** The values that still count at a path: at each step down, a layer holding anything but a
      table hides every layer below it. */
  function Surviving(layers: seq<Value>, path: seq<string>): seq<Value>
    decreases |path|
  {
    if path == [] then layers
    else Surviving(Children(TrailingTables(layers), path[0]), path[1..])
  }

  lemma FoldedSnoc(layers: seq<Value>, top: Value)
    requires layers != []
    ensures Folded(layers + [top]) == Merged(Folded(layers), top)
  {
    assert (layers + [top])[..|layers|] == layers;
  }

  /** The fold has the kind of its highest layer. */
  lemma FoldedKind(layers: seq<Value>)
    requires layers != []
    ensures Folded(layers).Table? <==> layers[|layers| - 1].Table?
    ensures Folded(layers).Array? <==> layers[|layers| - 1].Array?
    ensures !IsContainer(layers[|layers| - 1]) ==> Folded(layers) == layers[|layers| - 1]
  {
  }

  lemma ChildrenSnoc(tables: seq<Value>, top: Value, key: string)
    ensures Children(tables + [top], key) ==
            if top.Table? && key in top.entries then Children(tables, key) + [top.entries[key]]
            else Children(tables, key)
  {
    assert (tables + [top])[..|tables|] == tables;
  }

  lemma TrailingSnoc(layers: seq<Value>, top: Value)
    ensures TrailingTables(layers + [top]) ==
            if top.Table? then TrailingTables(layers) + [top] else []
    ensures TrailingArrays(layers + [top]) ==
            if top.Array? then TrailingArrays(layers) + [top] else []
  {
    assert (layers + [top])[..|layers|] == layers;
  }

  function EntryOf(v: Value, key: string): Option<Value> {
    if v.Table? && key in v.entries then Some(v.entries[key]) else None
  }

  lemma MergedEntry(base: Value, overlay: Value, key: string)
    requires overlay.Table?
    ensures EntryOf(Merged(base, overlay), key) ==
            match (EntryOf(base, key), EntryOf(overlay, key))
            case (Some(b), Some(o)) => Some(Merged(b, o))
            case (e, None) => e
            case (None, e) => e
  {
  }

  /** The entry a fold of layers has for a key. */
  lemma {:induction false} FoldedEntry(layers: seq<Value>, key: string)
    requires layers != []
    ensures var cs := Children(TrailingTables(layers), key);
            EntryOf(Folded(layers), key) == if cs == [] then None else Some(Folded(cs))
  {
    var front, last := layers[..|layers| - 1], layers[|layers| - 1];
    assert layers == front + [last];
    FoldedKind(layers);
    TrailingSnoc(front, last);
    if last.Table? {
      var ts := TrailingTables(front);
      ChildrenSnoc(ts, last, key);
      if front == [] {
        assert ts == [] && Children(ts, key) == [];
      } else {
        FoldedEntry(front, key);
        FoldedSnoc(front, last);
        MergedEntry(Folded(front), last, key);
        var cs := Children(ts, key);
        if cs != [] && key in last.entries {
          FoldedSnoc(cs, last.entries[key]);
        }
      }
    }
  }

  /** What the folded configuration holds at any path, for any layers at all. */
  lemma {:induction false} LookupInFold(layers: seq<Value>, path: seq<string>)
    requires layers != []
    ensures var s := Surviving(layers, path);
            At(Folded(layers), path) == if s == [] then None else Some(Folded(s))
    decreases |path|
  {
    if path != [] {
      FoldedEntry(layers, path[0]);
      var cs := Children(TrailingTables(layers), path[0]);
      if cs != [] {
        LookupInFold(cs, path[1..]);
      } else {
        NothingSurvives(path[1..]);
      }
    }
  }

  lemma {:induction false} NothingSurvives(path: seq<string>)
    ensures Surviving([], path) == []
  {
    if path != [] {
      NothingSurvives(path[1..]);
    }
  }

  // ----- which layer wins -----

  /** No table key above `path` is missing a table: the layer can be looked up along it. */
  ghost predicate Unobstructed(v: Value, path: seq<string>) {
    path != [] ==>
      v.Table? && (path[0] in v.entries ==> Unobstructed(v.entries[path[0]], path[1..]))
  }

  /** The values the layers themselves give at a path, lowest first. */
  function Defined(layers: seq<Value>, path: seq<string>): seq<Value> {
    if layers == [] then []
    else
      var front, last := Defined(layers[..|layers| - 1], path), At(layers[|layers| - 1], path);
      if last.Some? then front + [last.value] else front
  }

  lemma DefinedSnoc(layers: seq<Value>, top: Value, path: seq<string>)
    ensures Defined(layers + [top], path) ==
            if At(top, path).Some? then Defined(layers, path) + [At(top, path).value]
            else Defined(layers, path)
  {
    assert (layers + [top])[..|layers|] == layers;
  }

  lemma {:induction false} DefinedByChildren(layers: seq<Value>, path: seq<string>)
    requires path != []
    requires forall i :: 0 <= i < |layers| ==> Unobstructed(layers[i], path)
    ensures TrailingTables(layers) == layers
    ensures Defined(layers, path) == Defined(Children(layers, path[0]), path[1..])
    ensures forall i :: 0 <= i < |Children(layers, path[0])| ==>
              Unobstructed(Children(layers, path[0])[i], path[1..])
  {
    if layers != [] {
      var front, last := layers[..|layers| - 1], layers[|layers| - 1];
      assert layers == front + [last];
      DefinedByChildren(front, path);
      TrailingSnoc(front, last);
      DefinedSnoc(front, last, path);
      ChildrenSnoc(front, last, path[0]);
      if path[0] in last.entries {
        DefinedSnoc(Children(front, path[0]), last.entries[path[0]], path[1..]);
      }
    }
  }

  lemma {:induction false} DefinedHere(layers: seq<Value>)
    ensures Defined(layers, []) == layers
  {
    if layers != [] {
      DefinedHere(layers[..|layers| - 1]);
    }
  }

  /** When no layer puts a non-table above the path, every layer's own value counts. */
  lemma {:induction false} AllSurvive(layers: seq<Value>, path: seq<string>)
    requires forall i :: 0 <= i < |layers| ==> Unobstructed(layers[i], path)
    ensures Surviving(layers, path) == Defined(layers, path)
    decreases |path|
  {
    if path == [] {
      DefinedHere(layers);
    } else {
      DefinedByChildren(layers, path);
      AllSurvive(Children(layers, path[0]), path[1..]);
    }
  }

  /** The elements of all the arrays, in order. */
  function Elements(arrays: seq<Value>): seq<Value> {
    if arrays == [] then []
    else
      var last := arrays[|arrays| - 1];
      Elements(arrays[..|arrays| - 1]) + (if last.Array? then last.items else [])
  }

  lemma ElementsSnoc(arrays: seq<Value>, top: Value)
    requires top.Array?
    ensures Elements(arrays + [top]) == Elements(arrays) + top.items
  {
    assert (arrays + [top])[..|arrays|] == arrays;
  }

  /** What folding arrays gives: one alone is kept, several are united. */
  function United(arrays: seq<Value>): Value
    requires arrays != []
  {
    if |arrays| == 1 then arrays[0] else Array(Dedup(Elements(arrays)))
  }

  lemma UnitedSnoc(arrays: seq<Value>, top: Value)
    requires arrays != [] && arrays[0].Array? && top.Array?
    ensures Merged(United(arrays), top) == United(arrays + [top])
  {
    ElementsSnoc(arrays, top);
    if |arrays| == 1 {
      assert arrays == [] + [arrays[0]];
      ElementsSnoc([], arrays[0]);
      assert [] + arrays[0].items == arrays[0].items;
      MergedArrays(arrays[0].items, top.items);
    } else {
      MergedArrays(Dedup(Elements(arrays)), top.items);
      DedupLeft(Elements(arrays), top.items);
    }
  }

  lemma {:induction false} FoldedArrays(layers: seq<Value>)
    requires layers != [] && layers[|layers| - 1].Array?
    ensures var t := TrailingArrays(layers);
            && t != [] && (forall u :: u in t ==> u.Array?)
            && Folded(layers) == United(t)
  {
    var front, last := layers[..|layers| - 1], layers[|layers| - 1];
    assert layers == front + [last];
    TrailingSnoc(front, last);
    if front == [] {
      assert TrailingArrays(layers) == [last];
    } else {
      FoldedSnoc(front, last);
      FoldedKind(front);
      if front[|front| - 1].Array? {
        FoldedArrays(front);
        var t := TrailingArrays(front);
        assert t[0] in t;
        UnitedSnoc(t, last);
      } else {
        assert TrailingArrays(layers) == [last];
      }
    }
  }

  /** A scalar in the folded configuration is the one the highest layer defining the path
      gives. */
  lemma ScalarFromHighestLayer(layers: seq<Value>, path: seq<string>)
    requires layers != []
    requires forall i :: 0 <= i < |layers| ==> Unobstructed(layers[i], path)
    ensures At(Folded(layers), path).None? <==> Defined(layers, path) == []
    ensures At(Folded(layers), path).Some? && !IsContainer(At(Folded(layers), path).value) ==>
            At(Folded(layers), path).value == Defined(layers, path)[|Defined(layers, path)| - 1]
  {
    LookupInFold(layers, path);
    AllSurvive(layers, path);
    if Defined(layers, path) != [] {
      FoldedKind(Defined(layers, path));
    }
  }

  /** An array in the folded configuration is the first-occurrence union of the arrays the
      layers define, back to the last layer defining something else; one array alone is kept
      as it is. No element of those arrays is lost. */
  lemma ArrayFromAllLayers(layers: seq<Value>, path: seq<string>)
    requires layers != []
    requires forall i :: 0 <= i < |layers| ==> Unobstructed(layers[i], path)
    requires At(Folded(layers), path).Some? && At(Folded(layers), path).value.Array?
    ensures var t := TrailingArrays(Defined(layers, path));
            && t != []
            && At(Folded(layers), path).value == United(t)
            && Keys(At(Folded(layers), path).value.items) == Keys(Elements(t))
  {
    LookupInFold(layers, path);
    AllSurvive(layers, path);
    var d := Defined(layers, path);
    FoldedKind(d);
    FoldedArrays(d);
    UnitedKeys(TrailingArrays(d));
  }

  /** No element of those arrays is lost and none is made up, when elements that serialise
      alike are the same; several arrays are united in first-occurrence order. */
  lemma NoElementLost(layers: seq<Value>, path: seq<string>)
    requires layers != []
    requires forall i :: 0 <= i < |layers| ==> Unobstructed(layers[i], path)
    requires At(Folded(layers), path).Some? && At(Folded(layers), path).value.Array?
    requires forall x :: x in Elements(TrailingArrays(Defined(layers, path))) ==> Plain(x)
    ensures var t, items := TrailingArrays(Defined(layers, path)), At(Folded(layers), path).value.items;
      && (forall x :: x in items <==> x in Elements(t))
      && (|t| > 1 ==> FirstOccurrences(Elements(t), items))
  {
    ArrayFromAllLayers(layers, path);
    UnitedElements(TrailingArrays(Defined(layers, path)));
  }

  lemma {:induction false} UnitedElements(arrays: seq<Value>)
    requires arrays != [] && United(arrays).Array?
    requires forall x :: x in Elements(arrays) ==> Plain(x)
    ensures forall x :: x in United(arrays).items <==> x in Elements(arrays)
    ensures |arrays| > 1 ==> FirstOccurrences(Elements(arrays), United(arrays).items)
  {
    if |arrays| > 1 {
      DedupElements(Elements(arrays));
    } else {
      assert Elements(arrays) == arrays[0].items by {
        ElementsOne(arrays[0]);
        assert arrays == [arrays[0]];
      }
    }
  }

  lemma {:induction false} DedupElements(all: seq<Value>)
    requires forall x :: x in all ==> Plain(x)
    ensures FirstOccurrences(all, Dedup(all)) && forall x :: x in Dedup(all) <==> x in all
  {
    var at := DedupPicks(all);
    PickedAll(all, Dedup(all), at);
  }

  lemma UnitedKeys(arrays: seq<Value>)
    requires arrays != [] && forall u :: u in arrays ==> u.Array?
    ensures United(arrays).Array? && Keys(United(arrays).items) == Keys(Elements(arrays))
  {
    DedupKeys(Elements(arrays));
    if |arrays| == 1 {
      assert arrays == [] + [arrays[0]];
      ElementsSnoc([], arrays[0]);
      assert [] + arrays[0].items == arrays[0].items;
    }
  }

  // ----- folding some layers into a tree of their own first -----

  /** Whether folding `upper` first and merging the result over `lower` gives what folding
      layer by layer gives. Where the folded upper layers and the lower one are both tables,
      or both arrays, but some upper layer in between is not, the lower one must have nothing
      to add. */
  ghost predicate PrefoldSafe(lower: Value, upper: seq<Value>)
    decreases lower
  {
    if upper == [] || !SameContainer(lower, Folded(upper)) then true
    else if exists u :: u in upper && !SameContainer(lower, u) then Absorbed(lower, Folded(upper))
    else lower.Table? ==>
      forall k :: k in lower.entries ==> PrefoldSafe(lower.entries[k], Children(upper, k))
  }

  lemma {:induction false} CutOff(lower: Value, upper: seq<Value>)
    requires upper != [] && exists u :: u in upper && !SameContainer(lower, u)
    ensures Folded([lower] + upper) == Folded(upper)
  {
    var front, last := upper[..|upper| - 1], upper[|upper| - 1];
    assert upper == front + [last];
    assert Folded([lower] + upper) == Merged(Folded([lower] + front), last) by {
      assert [lower] + upper == ([lower] + front) + [last];
      FoldedSnoc([lower] + front, last);
    }
    if front == [] {
      assert [lower] + front == [lower] && upper == [last];
    } else {
      assert Folded(upper) == Merged(Folded(front), last) by { FoldedSnoc(front, last); }
      if exists u :: u in front && !SameContainer(lower, u) {
        CutOff(lower, front);
      } else {
        CutLast(lower, front, last);
      }
    }
  }

  /** A top that is no container like all the layers below hides them all. */
  lemma {:induction false} CutLast(lower: Value, front: seq<Value>, last: Value)
    requires front != [] && !SameContainer(lower, last)
    requires forall u :: u in front ==> SameContainer(lower, u)
    ensures Merged(Folded([lower] + front), last) == last && Merged(Folded(front), last) == last
  {
    FoldedKind([lower] + front);
    FoldedKind(front);
    var top := front[|front| - 1];
    assert top in front && ([lower] + front)[|front|] == top;
    assert SameContainer(lower, top);
  }

  lemma AllTrailing(layers: seq<Value>)
    ensures (forall u :: u in layers ==> u.Table?) ==> TrailingTables(layers) == layers
    ensures (forall u :: u in layers ==> u.Array?) ==> TrailingArrays(layers) == layers
  {
    if forall u :: u in layers ==> u.Table? {
      AllTables(layers);
    }
    if forall u :: u in layers ==> u.Array? {
      AllArrays(layers);
    }
  }

  lemma {:induction false} AllTables(layers: seq<Value>)
    requires forall u :: u in layers ==> u.Table?
    ensures TrailingTables(layers) == layers
  {
    if layers != [] {
      AllTables(layers[..|layers| - 1]);
    }
  }

  lemma {:induction false} AllArrays(layers: seq<Value>)
    requires forall u :: u in layers ==> u.Array?
    ensures TrailingArrays(layers) == layers
  {
    if layers != [] {
      AllArrays(layers[..|layers| - 1]);
    }
  }

  lemma {:induction false} ChildrenCons(lower: Value, upper: seq<Value>, key: string)
    requires lower.Table?
    ensures Children([lower] + upper, key) ==
            (if key in lower.entries then [lower.entries[key]] else []) + Children(upper, key)
  {
    if upper == [] {
      assert [lower] + upper == [] + [lower];
      ChildrenSnoc([], lower, key);
    } else {
      var front, last := upper[..|upper| - 1], upper[|upper| - 1];
      assert [lower] + upper == ([lower] + front) + [last];
      assert upper == front + [last];
      ChildrenSnoc([lower] + front, last, key);
      ChildrenSnoc(front, last, key);
      ChildrenCons(lower, front, key);
    }
  }

  lemma {:induction false} ElementsCons(lower: Value, upper: seq<Value>)
    requires lower.Array? && forall u :: u in upper ==> u.Array?
    ensures Elements([lower] + upper) == lower.items + Elements(upper)
  {
    if upper == [] {
      assert [lower] + upper == [lower];
      ElementsOne(lower);
    } else {
      var front, last := upper[..|upper| - 1], upper[|upper| - 1];
      assert Elements([lower] + upper) == Elements([lower] + front) + last.items by {
        assert [lower] + upper == ([lower] + front) + [last];
        ElementsSnoc([lower] + front, last);
      }
      assert Elements(upper) == Elements(front) + last.items by {
        assert upper == front + [last];
        ElementsSnoc(front, last);
      }
      assert Elements([lower] + front) == lower.items + Elements(front) by {
        ElementsCons(lower, front);
      }
      Regrouped(lower.items, Elements(front), last.items);
    }
  }

  lemma Regrouped(a: seq<Value>, b: seq<Value>, c: seq<Value>)
    ensures (a + b) + c == a + (b + c)
  {
  }

  lemma ElementsOne(lower: Value)
    requires lower.Array?
    ensures Elements([lower]) == lower.items
  {
    assert [lower] == [] + [lower];
    ElementsSnoc([], lower);
    assert [] + lower.items == lower.items;
  }

  lemma PrefoldArrays(lower: Value, upper: seq<Value>)
    requires upper != [] && lower.Array? && forall u :: u in upper ==> u.Array?
    ensures Merged(lower, Folded(upper)) == Folded([lower] + upper)
  {
    var all := [lower] + upper;
    assert upper[|upper| - 1] in upper && all[|all| - 1] == upper[|upper| - 1];
    AllTrailing(upper);
    AllTrailing(all);
    FoldedArrays(upper);
    FoldedArrays(all);
    ElementsCons(lower, upper);
    if |upper| == 1 {
      assert upper == [] + [upper[0]];
      ElementsSnoc([], upper[0]);
      assert [] + upper[0].items == upper[0].items;
      MergedArrays(lower.items, upper[0].items);
    } else {
      MergedArrays(lower.items, Dedup(Elements(upper)));
      DedupRight(lower.items, Elements(upper));
    }
  }

  lemma {:induction false} PrefoldEntry(lower: Value, upper: seq<Value>, k: string)
    requires upper != [] && lower.Table? && forall u :: u in upper ==> u.Table?
    ensures var l, r := Merged(lower, Folded(upper)), Folded([lower] + upper);
      if k in lower.entries
      then EntryOf(l, k) == EntryOf(r, k) <==> PrefoldSafe(lower.entries[k], Children(upper, k))
      else EntryOf(l, k) == EntryOf(r, k)
    decreases lower, 0
  {
    var all := [lower] + upper;
    assert upper[|upper| - 1] in upper;
    AllTrailing(upper);
    AllTrailing(all);
    FoldedKind(upper);
    FoldedEntry(upper, k);
    FoldedEntry(all, k);
    ChildrenCons(lower, upper, k);
    MergedEntry(lower, Folded(upper), k);
    if k in lower.entries {
      PrefoldExactly(lower.entries[k], Children(upper, k));
    } else {
      assert [] + Children(upper, k) == Children(upper, k);
    }
  }

  lemma {:induction false} PrefoldTables(lower: Value, upper: seq<Value>)
    requires upper != [] && lower.Table? && forall u :: u in upper ==> u.Table?
    ensures PrefoldSafe(lower, upper) <==> Merged(lower, Folded(upper)) == Folded([lower] + upper)
    decreases lower, 1
  {
    var l, r := Merged(lower, Folded(upper)), Folded([lower] + upper);
    assert upper[|upper| - 1] in upper;
    FoldedKind(upper);
    FoldedKind([lower] + upper);
    if PrefoldSafe(lower, upper) {
      forall k ensures EntryOf(l, k) == EntryOf(r, k) {
        PrefoldEntry(lower, upper, k);
      }
      SameEntries(l, r);
    } else {
      var k :| k in lower.entries && !PrefoldSafe(lower.entries[k], Children(upper, k));
      PrefoldEntry(lower, upper, k);
    }
  }

  lemma SameEntries(l: Value, r: Value)
    requires l.Table? && r.Table?
    requires forall k :: EntryOf(l, k) == EntryOf(r, k)
    ensures l == r
  {
    forall k ensures k in l.entries <==> k in r.entries {
      assert EntryOf(l, k) == EntryOf(r, k);
    }
    forall k | k in l.entries ensures l.entries[k] == r.entries[k] {
      assert EntryOf(l, k) == EntryOf(r, k);
    }
    assert l.entries == r.entries;
  }

  /** Folding a run of layers first is the same as folding layer by layer exactly when
      `PrefoldSafe` holds. */
  lemma {:induction false} PrefoldExactly(lower: Value, upper: seq<Value>)
    ensures upper != [] ==>
      (PrefoldSafe(lower, upper) <==> Merged(lower, Folded(upper)) == Folded([lower] + upper))
    ensures upper == [] ==> PrefoldSafe(lower, upper) && Folded([lower] + upper) == lower
    decreases lower, 2
  {
    if upper == [] {
      assert [lower] + upper == [lower];
    } else {
      FoldedKind(upper);
      var last := upper[|upper| - 1];
      assert last in upper;
      if exists u :: u in upper && !SameContainer(lower, u) {
        CutOff(lower, upper);
        AbsorbedExactly(lower, Folded(upper));
      } else if lower.Array? {
        PrefoldArrays(lower, upper);
      } else {
        PrefoldTables(lower, upper);
      }
    }
  }
}
