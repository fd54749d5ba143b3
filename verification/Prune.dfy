/** Removing the locations a schema check flagged, one at a time
    (crates/config/src/validation.rs, crates/config/src/loader.rs), against removing all of
    them at once. */
module Prune {
  import opened Values
  import opened Text
  import opened Pointers

  // ----- one removal -----

  function WithoutIndex(items: seq<Value>, i: nat): seq<Value>
    requires i < |items|
  {
    items[..i] + items[i + 1..]
  }

  /** The element an array segment names, if the segment is a number in range. */
  function Index(items: seq<Value>, segment: string): Option<nat> {
    match ParseUnsigned(segment)
    case Some(i) => if i < |items| then Some(i) else None
    case None => None
  }

  /** `v` without the table entry or array element at `path`; later elements move down. */
  function RemoveAt(v: Value, path: Path): Value
    decreases |path|
  {
    if path == [] then v
    else
      match v
      case Table(t) =>
        if |path| == 1 then Table(t - {path[0]})
        else if path[0] in t then Table(t[path[0] := RemoveAt(t[path[0]], path[1..])])
        else v
      case Array(a) =>
        (match Index(a, path[0])
         case None => v
         case Some(i) =>
           if |path| == 1 then Array(WithoutIndex(a, i))
           else Array(a[i := RemoveAt(a[i], path[1..])]))
      case _ => v
  }

  /** The value at a location. */
  function Lookup(v: Value, path: Path): Option<Value>
    decreases |path|
  {
    if path == [] then Some(v)
    else
      match v
      case Table(t) => if path[0] in t then Lookup(t[path[0]], path[1..]) else None
      case Array(a) =>
        (match Index(a, path[0])
         case None => None
         case Some(i) => Lookup(a[i], path[1..]))
      case _ => None
  }

  /** `v` with the value at `path` overwritten through a reference to it. */
  function WriteAt(v: Value, path: Path, w: Value): Value
    requires Lookup(v, path).Some?
    decreases |path|
  {
    if path == [] then w
    else
      match v
      case Table(t) => Table(t[path[0] := WriteAt(t[path[0]], path[1..], w)])
      case Array(a) =>
        var i := Index(a, path[0]).value;
        Array(a[i := WriteAt(a[i], path[1..], w)])
  }

  lemma {:induction false} LookupStep(v: Value, path: Path, segment: string)
    requires Lookup(v, path).Some?
    ensures Lookup(v, path + [segment]) == Lookup(Lookup(v, path).value, [segment])
    decreases |path|
  {
    if path == [] {
      assert path + [segment] == [segment];
    } else {
      assert (path + [segment])[1..] == path[1..] + [segment];
      match v
      case Table(t) => LookupStep(t[path[0]], path[1..], segment);
      case Array(a) => LookupStep(a[Index(a, path[0]).value], path[1..], segment);
    }
  }

  lemma {:induction false} LookupMissing(v: Value, path: Path, segment: string, rest: Path)
    requires Lookup(v, path).Some? && Lookup(Lookup(v, path).value, [segment]).None?
    ensures Lookup(v, path + [segment] + rest).None?
    decreases |path|
  {
    var all := path + [segment] + rest;
    if path == [] {
      assert all == [segment] + rest;
    } else {
      assert all[1..] == path[1..] + [segment] + rest;
      match v
      case Table(t) => LookupMissing(t[path[0]], path[1..], segment, rest);
      case Array(a) => LookupMissing(a[Index(a, path[0]).value], path[1..], segment, rest);
    }
  }

  /** Removing a leaf is removing it from its parent, in place. */
  lemma {:induction false} RemoveThroughParent(v: Value, parents: Path, last: string)
    requires Lookup(v, parents).Some?
    ensures RemoveAt(v, parents + [last]) ==
            WriteAt(v, parents, RemoveAt(Lookup(v, parents).value, [last]))
    decreases |parents|
  {
    if parents == [] {
      assert parents + [last] == [last];
    } else {
      assert (parents + [last])[1..] == parents[1..] + [last];
      match v
      case Table(t) => RemoveThroughParent(t[parents[0]], parents[1..], last);
      case Array(a) => RemoveThroughParent(a[Index(a, parents[0]).value], parents[1..], last);
    }
  }

  lemma {:induction false} WriteBack(v: Value, path: Path)
    requires Lookup(v, path).Some?
    ensures WriteAt(v, path, Lookup(v, path).value) == v
    decreases |path|
  {
    if path != [] {
      match v
      case Table(t) =>
        WriteBack(t[path[0]], path[1..]);
        assert WriteAt(v, path, Lookup(v, path).value).entries == t;
      case Array(a) => WriteBack(a[Index(a, path[0]).value], path[1..]);
    }
  }

  /** What pruning a pointer means: nothing for the whole document. */
  function Pruned(v: Value, pointer: string): Value {
    match Segments(pointer)
    case None => v
    case Some(path) => RemoveAt(v, path)
  }

  method RemoveLeaf(parent: Value, last: string) returns (result: Value, removed: bool)
    ensures result == RemoveAt(parent, [last])
    ensures removed <==> Lookup(parent, [last]).Some?
    ensures !removed ==> result == parent
  {
    match parent {
      case Table(t) =>
        result, removed := Table(t - {last}), last in t;
        assert !removed ==> t - {last} == t;
      case Array(a) =>
        var i := ParseUnsigned(last);
        if i.Some? && i.value < |a| {
          result, removed := Array(WithoutIndex(a, i.value)), true;
        } else {
          result, removed := parent, false;
        }
      case _ =>
        result, removed := parent, false;
    }
  }

  /** Walks a cursor down; none when a step is missing. */
  method Descend(v: Value, parents: Path) returns (cursor: Option<Value>)
    ensures cursor == Lookup(v, parents)
  {
    var c := v;
    for i := 0 to |parents|
      invariant Lookup(v, parents[..i]) == Some(c)
    {
      var child := Lookup(c, [parents[i]]);
      assert parents[..i + 1] == parents[..i] + [parents[i]];
      LookupStep(v, parents[..i], parents[i]);
      if child.None? {
        assert parents == parents[..i] + [parents[i]] + parents[i + 1..];
        LookupMissing(v, parents[..i], parents[i], parents[i + 1..]);
        return None;
      }
      c := child.value;
    }
    assert parents[..|parents|] == parents;
    return Some(c);
  }

  /** Finds the parent of the leaf, then removes the leaf there. */
  method PruneInvalidField(v: Value, pointer: string) returns (result: Value, removed: bool)
    ensures result == Pruned(v, pointer)
    ensures removed <==> Segments(pointer).Some? && Lookup(v, Segments(pointer).value).Some?
    ensures !removed ==> result == v
  {
    if pointer == "" || pointer == "/" {
      return v, false;
    }
    var segments := Segments(pointer).value;
    var parents, last := segments[..|segments| - 1], segments[|segments| - 1];
    assert segments == parents + [last];
    var parent := Descend(v, parents);
    if parent.None? {
      MissingParent(v, parents, last);
      return v, false;
    }
    LookupStep(v, parents, last);
    RemoveThroughParent(v, parents, last);
    WriteBack(v, parents);
    var leafless;
    leafless, removed := RemoveLeaf(parent.value, last);
    result := WriteAt(v, parents, leafless);
  }

  /** A leaf without a parent is not there to remove. */
  lemma {:induction false} MissingParent(v: Value, parents: Path, last: string)
    requires Lookup(v, parents).None?
    ensures Lookup(v, parents + [last]).None?
    ensures RemoveAt(v, parents + [last]) == v
    decreases |parents|
  {
    assert (parents + [last])[1..] == parents[1..] + [last];
    match v
    case Table(t) =>
      if parents[0] in t {
        MissingParent(t[parents[0]], parents[1..], last);
        assert t[parents[0] := t[parents[0]]] == t;
      }
    case Array(a) =>
      if Index(a, parents[0]).Some? {
        MissingParent(a[Index(a, parents[0]).value], parents[1..], last);
      }
    case _ =>
  }

  // ----- what one removal does, in terms of the lists and tables themselves -----

  lemma {:induction false} LookupWritten(v: Value, path: Path, w: Value)
    requires Lookup(v, path).Some?
    ensures Lookup(WriteAt(v, path, w), path) == Some(w)
    decreases |path|
  {
    if path != [] {
      match v
      case Table(t) => LookupWritten(t[path[0]], path[1..], w);
      case Array(a) => LookupWritten(a[Index(a, path[0]).value], path[1..], w);
    }
  }

  /** The decimal numeral of an index names that element, and one past the end names none. */
  lemma NumeralNames(v: Value, path: Path, items: seq<Value>, i: nat)
    requires Lookup(v, path) == Some(Array(items)) && i <= U64_MAX
    ensures Lookup(v, path + [Digits(i)]) == if i < |items| then Some(items[i]) else None
  {
    LookupStep(v, path, Digits(i));
    ParseDigits(i);
    assert [Digits(i)][1..] == [];
  }

  lemma PrunedPointer(v: Value, path: Path, segment: string)
    requires path + [segment] != [""]
    ensures Pruned(v, Pointer(path + [segment])) == RemoveAt(v, path + [segment])
  {
    PointerRoundTrip(path + [segment]);
  }

  /** Pruning the pointer to an element takes exactly that element out of its list; the later
      ones move down. */
  lemma PrunesElement(v: Value, path: Path, items: seq<Value>, i: nat)
    requires Lookup(v, path) == Some(Array(items)) && i < |items| && i <= U64_MAX
    ensures Lookup(Pruned(v, Pointer(path + [Digits(i)])), path) == Some(Array(items[..i] + items[i + 1..]))
  {
    DigitsRead(i);
    ParseDigits(i);
    PrunedPointer(v, path, Digits(i));
    RemoveThroughParent(v, path, Digits(i));
    assert RemoveAt(Array(items), [Digits(i)]) == Array(items[..i] + items[i + 1..]);
    LookupWritten(v, path, Array(items[..i] + items[i + 1..]));
  }

  /** Past the end of a list, or with something that is no number, nothing is pruned. */
  lemma PrunesNoElement(v: Value, path: Path, items: seq<Value>, segment: string)
    requires Lookup(v, path) == Some(Array(items)) && path + [segment] != [""]
    requires forall i: nat :: i < |items| ==> ParseUnsigned(segment) != Some(i)
    ensures Pruned(v, Pointer(path + [segment])) == v
  {
    PrunedPointer(v, path, segment);
    RemoveThroughParent(v, path, segment);
    WriteBack(v, path);
  }

  /** Pruning the pointer to an entry takes exactly that entry out of its table. */
  lemma PrunesEntry(v: Value, path: Path, entries: map<string, Value>, key: string)
    requires Lookup(v, path) == Some(Table(entries)) && path + [key] != [""]
    ensures Lookup(Pruned(v, Pointer(path + [key])), path) == Some(Table(entries - {key}))
  {
    PrunedPointer(v, path, key);
    RemoveThroughParent(v, path, key);
    LookupWritten(v, path, Table(entries - {key}));
  }

  /** Two locations part somewhere above the end of the first. */
  predicate PartsAbove(path: Path, other: Path) {
    |path| > 1 && other != [] &&
    if path[0] == other[0] then PartsAbove(path[1..], other[1..]) else !SameSegment(path[0], other[0])
  }

  /** Everything outside the list or table in question is as it was. */
  lemma {:induction false} ElsewhereKept(v: Value, path: Path, other: Path)
    requires PartsAbove(path, other)
    ensures Lookup(RemoveAt(v, path), other) == Lookup(v, other)
    decreases |path|
  {
    match v
    case Table(t) =>
      if path[0] == other[0] && path[0] in t {
        ElsewhereKept(t[path[0]], path[1..], other[1..]);
      }
    case Array(a) =>
      if path[0] == other[0] && Index(a, path[0]).Some? {
        ElsewhereKept(a[Index(a, path[0]).value], path[1..], other[1..]);
      }
    case _ =>
  }

  // ----- many removals -----

  /** One level down a tree: a table key, or an array index. */
  datatype Step = Key(key: string) | At(index: nat)

  predicate Names(segment: string, step: Step) {
    match step
    case Key(k) => segment == k
    case At(i) => ParseUnsigned(segment) == Some(i)
  }

  /** How many of the locations are this child itself. */
  function Hits(paths: seq<Path>, step: Step): nat {
    if paths == [] then 0 else HitOne(paths[0], step) + Hits(paths[1..], step)
  }

  function HitOne(path: Path, step: Step): nat {
    if |path| == 1 && Names(path[0], step) then 1 else 0
  }

  /** The locations below this child, relative to it. */
  function Below(paths: seq<Path>, step: Step): seq<Path> {
    if paths == [] then [] else BelowOne(paths[0], step) + Below(paths[1..], step)
  }

  function BelowOne(path: Path, step: Step): seq<Path> {
    if |path| > 1 && Names(path[0], step) then [path[1..]] else []
  }

  /** The loop of `resolve`: one removal after the other. */
  function RemoveEach(v: Value, paths: seq<Path>): Value
    decreases |paths|
  {
    if paths == [] then v
    else RemoveEach(RemoveAt(v, paths[0]), paths[1..])
  }

  /** All the locations removed at once, each as it was in the original tree. */
  function RemoveAll(v: Value, paths: seq<Path>): Value
    decreases v, if v.Array? then |v.items| + 1 else 0
  {
    match v
    case Table(t) =>
      Table(map k | k in t && Hits(paths, Key(k)) == 0 :: RemoveAll(t[k], Below(paths, Key(k))))
    case Array(a) => Array(Kept(v, 0, paths))
    case _ => v
  }

  /** The elements from `i` on that are not flagged, in order. */
  function Kept(v: Value, i: nat, paths: seq<Path>): seq<Value>
    requires v.Array? && i <= |v.items|
    decreases v, |v.items| - i
  {
    if i == |v.items| then []
    else if Hits(paths, At(i)) > 0 then Kept(v, i + 1, paths)
    else [RemoveAll(v.items[i], Below(paths, At(i)))] + Kept(v, i + 1, paths)
  }

  /** `paths` in the order `resolve` prunes: no path before a greater one. */
  ghost predicate Descending(paths: seq<Path>) {
    forall i, j :: 0 <= i < j < |paths| ==>
      ComparePaths(EscapeAll(paths[i]), EscapeAll(paths[j])) != Less
  }

  /** What the order gives at an array: higher indices first, and whatever lies below an
      element before the element itself. */
  ghost predicate IndicesDescend(paths: seq<Path>) {
    forall i, j, x, y ::
      0 <= i < j < |paths| && FirstIs(paths[i], x) && FirstIs(paths[j], y)
      ==> x > y || (x == y && (|paths[i]| > 1 || |paths[j]| == 1))
  }

  predicate FirstIs(path: Path, i: nat) {
    path != [] && ParseUnsigned(path[0]) == Some(i)
  }

  lemma IndexOrder(p: Path, q: Path, x: nat, y: nat)
    requires FirstIs(p, x) && FirstIs(q, y)
    requires ComparePaths(EscapeAll(p), EscapeAll(q)) != Less
    ensures x > y || (x == y && (|p| > 1 || |q| == 1))
  {
    ParseEscaped(p[0]);
    ParseEscaped(q[0]);
    CompareHeads(EscapeAll(p), EscapeAll(q));
    EscapeAllRest(p);
    EscapeAllRest(q);
  }

  /** What the first segments settle. */
  lemma CompareHeads(l: seq<string>, r: seq<string>)
    requires l != [] && r != []
    ensures CompareSegments(l[0], r[0]) != Equal ==> ComparePaths(l, r) == CompareSegments(l[0], r[0])
    ensures CompareSegments(l[0], r[0]) == Equal && l[1..] == [] && r[1..] != [] ==> ComparePaths(l, r) == Less
  {
  }

  lemma DescendingIndices(paths: seq<Path>)
    requires Descending(paths)
    ensures IndicesDescend(paths)
  {
    forall i, j, x, y | 0 <= i < j < |paths| && FirstIs(paths[i], x) && FirstIs(paths[j], y)
      ensures x > y || (x == y && (|paths[i]| > 1 || |paths[j]| == 1))
    {
      IndexOrder(paths[i], paths[j], x, y);
    }
  }

  lemma {:induction false} BelowMember(paths: seq<Path>, step: Step, q: Path)
    ensures q in Below(paths, step) <==>
            exists p :: p in paths && |p| > 1 && Names(p[0], step) && p[1..] == q
  {
    if paths != [] {
      BelowMember(paths[1..], step, q);
      assert forall p :: p in paths <==> p == paths[0] || p in paths[1..];
    }
  }

  lemma {:induction false} HitsMember(paths: seq<Path>, step: Step)
    ensures Hits(paths, step) > 0 <==>
            exists p :: p in paths && |p| == 1 && Names(p[0], step)
  {
    if paths != [] {
      HitsMember(paths[1..], step);
      assert forall p :: p in paths <==> p == paths[0] || p in paths[1..];
    }
  }

  lemma CompareBelow(p: Path, q: Path, step: Step)
    requires |p| > 1 && |q| > 1 && Names(p[0], step) && Names(q[0], step)
    ensures ComparePaths(EscapeAll(p), EscapeAll(q)) ==
            ComparePaths(EscapeAll(p[1..]), EscapeAll(q[1..]))
  {
    ParseEscaped(p[0]);
    ParseEscaped(q[0]);
    CompareTextEqual(Escape(p[0]), Escape(q[0]));
    EscapeAllRest(p);
    EscapeAllRest(q);
  }

  lemma EscapeAllRest(p: Path)
    requires p != []
    ensures EscapeAll(p)[0] == Escape(p[0]) && EscapeAll(p)[1..] == EscapeAll(p[1..])
  {
  }

  /** The order carries over to the locations below any child. */
  lemma {:induction false} DescendingBelow(paths: seq<Path>, step: Step)
    requires Descending(paths)
    ensures Descending(Below(paths, step))
  {
    if paths != [] {
      var p, rest := paths[0], paths[1..];
      assert Descending(rest) by {
        forall i, j | 0 <= i < j < |rest|
          ensures ComparePaths(EscapeAll(rest[i]), EscapeAll(rest[j])) != Less
        {
          assert rest[i] == paths[i + 1] && rest[j] == paths[j + 1];
        }
      }
      DescendingBelow(rest, step);
      if |p| > 1 && Names(p[0], step) {
        HeadDescends(paths, step);
        assert Below(paths, step) == [p[1..]] + Below(rest, step);
      }
    }
  }

  lemma HeadDescends(paths: seq<Path>, step: Step)
    requires Descending(paths) && paths != [] && |paths[0]| > 1 && Names(paths[0][0], step)
    ensures forall b :: b in Below(paths[1..], step) ==>
              ComparePaths(EscapeAll(paths[0][1..]), EscapeAll(b)) != Less
  {
    var p, rest := paths[0], paths[1..];
    forall b | b in Below(rest, step) ensures ComparePaths(EscapeAll(p[1..]), EscapeAll(b)) != Less {
      BelowMember(rest, step, b);
      var q :| q in rest && |q| > 1 && Names(q[0], step) && q[1..] == b;
      var k :| 0 <= k < |rest| && rest[k] == q;
      assert paths[k + 1] == q;
      CompareBelow(p, q, step);
    }
  }

  // ----- what the loop does to a table -----

  function TableLeft(t: map<string, Value>, paths: seq<Path>): map<string, Value> {
    map k | k in t && Hits(paths, Key(k)) == 0 :: RemoveEach(t[k], Below(paths, Key(k)))
  }

  /** The entries of a table are pruned independently, in any order. */
  lemma {:induction false} RemoveEachTable(t: map<string, Value>, paths: seq<Path>)
    ensures RemoveEach(Table(t), paths) == Table(TableLeft(t, paths))
    decreases |paths|
  {
    if paths == [] {
      assert TableLeft(t, paths) == t;
    } else {
      RemoveEachTable(RemoveAt(Table(t), paths[0]).entries, paths[1..]);
      TableLeftStep(t, paths);
    }
  }

  /** What the first location contributes at a child. */
  lemma FirstLocation(paths: seq<Path>, step: Step)
    requires paths != []
    ensures Hits(paths, step) == HitOne(paths[0], step) + Hits(paths[1..], step)
    ensures BelowOne(paths[0], step) == [] ==> Below(paths, step) == Below(paths[1..], step)
    ensures BelowOne(paths[0], step) != [] ==>
              Below(paths, step) == [paths[0][1..]] + Below(paths[1..], step)
  {
  }

  lemma RemoveEachBelow(v: Value, paths: seq<Path>, step: Step)
    requires paths != [] && BelowOne(paths[0], step) != []
    ensures RemoveEach(v, Below(paths, step)) ==
            RemoveEach(RemoveAt(v, paths[0][1..]), Below(paths[1..], step))
  {
    FirstLocation(paths, step);
    assert ([paths[0][1..]] + Below(paths[1..], step))[1..] == Below(paths[1..], step);
  }

  lemma EntryLeftStep(t: map<string, Value>, paths: seq<Path>, k: string)
    requires paths != []
    ensures var t', rest := RemoveAt(Table(t), paths[0]).entries, paths[1..];
            && (k in t' && Hits(rest, Key(k)) == 0 <==> k in t && Hits(paths, Key(k)) == 0)
            && (k in t' && k in t ==>
                  RemoveEach(t'[k], Below(rest, Key(k))) == RemoveEach(t[k], Below(paths, Key(k))))
  {
    FirstLocation(paths, Key(k));
    if BelowOne(paths[0], Key(k)) != [] && k in t {
      RemoveEachBelow(t[k], paths, Key(k));
    }
  }

  lemma TableLeftStep(t: map<string, Value>, paths: seq<Path>)
    requires paths != []
    ensures TableLeft(RemoveAt(Table(t), paths[0]).entries, paths[1..]) == TableLeft(t, paths)
  {
    var l, r := TableLeft(RemoveAt(Table(t), paths[0]).entries, paths[1..]), TableLeft(t, paths);
    forall k ensures (k in l <==> k in r) && (k in l && k in r ==> l[k] == r[k]) {
      EntryLeftStep(t, paths, k);
    }
  }

  // ----- what the loop does to an array -----

  function Drop(s: seq<Value>, n: nat): seq<Value> {
    if n >= |s| then [] else s[n..]
  }

  /** The elements the loop leaves from index `i` on. Every hit on an index after the first
      takes away the next element still there. */
  function Left(items: seq<Value>, i: nat, paths: seq<Path>): seq<Value>
    decreases |items| - i
  {
    if i >= |items| then []
    else
      var later := Left(items, i + 1, paths);
      var hits := Hits(paths, At(i));
      if hits == 0 then [RemoveEach(items[i], Below(paths, At(i)))] + later
      else Drop(later, hits - 1)
  }

  lemma LeftUnfold(items: seq<Value>, i: nat, paths: seq<Path>)
    requires i < |items|
    ensures Left(items, i, paths) ==
            if Hits(paths, At(i)) == 0
            then [RemoveEach(items[i], Below(paths, At(i)))] + Left(items, i + 1, paths)
            else Drop(Left(items, i + 1, paths), Hits(paths, At(i)) - 1)
  {
  }

  lemma {:induction false} LeftUntouched(items: seq<Value>, i: nat, paths: seq<Path>)
    requires i <= |items|
    requires forall j :: i <= j < |items| ==> Hits(paths, At(j)) == 0 && Below(paths, At(j)) == []
    ensures Left(items, i, paths) == items[i..]
    decreases |items| - i
  {
    if i < |items| {
      LeftUntouched(items, i + 1, paths);
    }
  }

  lemma LeftStep(items: seq<Value>, items': seq<Value>, i: nat, paths: seq<Path>, paths': seq<Path>)
    requires i < |items| && i < |items'|
    requires Hits(paths, At(i)) == Hits(paths', At(i))
    requires RemoveEach(items[i], Below(paths, At(i))) == RemoveEach(items'[i], Below(paths', At(i)))
    requires Left(items, i + 1, paths) == Left(items', i + 1, paths')
    ensures Left(items, i, paths) == Left(items', i, paths')
  {
    LeftUnfold(items, i, paths);
    LeftUnfold(items', i, paths');
  }

  /** A removal that does not change the number of elements. */
  lemma {:induction false} LeftInside(items: seq<Value>, items': seq<Value>, paths: seq<Path>, i: nat)
    requires paths != [] && Array(items') == RemoveAt(Array(items), paths[0])
    requires |paths[0]| != 1 || Index(items, paths[0][0]).None?
    ensures Left(items, i, paths) == Left(items', i, paths[1..])
    decreases |items| - i
  {
    if i < |items| {
      LeftInside(items, items', paths, i + 1);
      ElementInside(items, items', paths, i);
      LeftStep(items, items', i, paths, paths[1..]);
    }
  }

  lemma ElementInside(items: seq<Value>, items': seq<Value>, paths: seq<Path>, i: nat)
    requires paths != [] && Array(items') == RemoveAt(Array(items), paths[0]) && i < |items|
    requires |paths[0]| != 1 || Index(items, paths[0][0]).None?
    ensures |items'| == |items|
    ensures Hits(paths, At(i)) == Hits(paths[1..], At(i))
    ensures RemoveEach(items[i], Below(paths, At(i))) == RemoveEach(items'[i], Below(paths[1..], At(i)))
  {
    FirstLocation(paths, At(i));
    assert HitOne(paths[0], At(i)) == 0;
    if BelowOne(paths[0], At(i)) != [] {
      assert Index(items, paths[0][0]) == Some(i);
      RemoveEachBelow(items[i], paths, At(i));
    } else {
      assert items'[i] == items[i];
    }
  }

  /** No location reaches past element `x`, and none reaches below it. */
  ghost predicate ReachesUpTo(paths: seq<Path>, x: nat) {
    && (forall j :: j > x ==> Hits(paths, At(j)) == 0 && Below(paths, At(j)) == [])
    && Below(paths, At(x)) == []
  }

  lemma NoneNamed(paths: seq<Path>, step: Step)
    ensures (forall q :: q in paths && |q| > 1 ==> !Names(q[0], step)) ==> Below(paths, step) == []
    ensures (forall q :: q in paths && |q| == 1 ==> !Names(q[0], step)) ==> Hits(paths, step) == 0
  {
    HitsMember(paths, step);
    if Below(paths, step) != [] {
      var b := Below(paths, step)[0];
      assert b in Below(paths, step);
      BelowMember(paths, step, b);
    }
  }

  /** The order of the locations that come after a removal of element `x`. */
  lemma RestBelow(paths: seq<Path>, x: nat)
    requires paths != [] && IndicesDescend(paths) && |paths[0]| == 1 && FirstIs(paths[0], x)
    ensures ReachesUpTo(paths[1..], x)
  {
    var rest := paths[1..];
    forall q, y: nat | q in rest && FirstIs(q, y) ensures y < x || (y == x && |q| == 1) {
      var k :| 0 <= k < |rest| && rest[k] == q;
      assert paths[k + 1] == q;
    }
    forall j | j >= x
      ensures Below(rest, At(j)) == []
      ensures j > x ==> Hits(rest, At(j)) == 0
    {
      assert forall q :: q in rest && q != [] && Names(q[0], At(j)) ==> FirstIs(q, j);
      NoneNamed(rest, At(j));
    }
  }

  /** A removal of element `x`, seen from index `x`: before and after. */
  lemma LeftBeforeRemoval(items: seq<Value>, paths: seq<Path>, x: nat)
    requires paths != [] && |paths[0]| == 1 && FirstIs(paths[0], x) && x < |items|
    requires ReachesUpTo(paths[1..], x)
    ensures Left(items, x, paths) == Drop(items[x + 1..], Hits(paths[1..], At(x)))
  {
    assert Left(items, x + 1, paths) == items[x + 1..] by {
      forall j | x < j < |items| ensures Hits(paths, At(j)) == 0 && Below(paths, At(j)) == [] {
        FirstLocation(paths, At(j));
      }
      LeftUntouched(items, x + 1, paths);
    }
    FirstLocation(paths, At(x));
    LeftUnfold(items, x, paths);
  }

  lemma LeftAfterRemoval(items: seq<Value>, rest: seq<Path>, x: nat)
    requires ReachesUpTo(rest, x) && x <= |items|
    ensures Left(items, x, rest) == Drop(items[x..], Hits(rest, At(x)))
  {
    if x < |items| {
      var s, later := items[x..], items[x + 1..];
      assert Left(items, x + 1, rest) == later by { LeftUntouched(items, x + 1, rest); }
      LeftUnfold(items, x, rest);
      assert s[1..] == later;
      if Hits(rest, At(x)) > 0 {
        DropTail(s, Hits(rest, At(x)));
      } else {
        assert RemoveEach(items[x], []) == items[x];
        assert s == [items[x]] + later;
      }
    }
  }

  lemma DropTail(s: seq<Value>, n: nat)
    requires s != [] && n > 0
    ensures Drop(s, n) == Drop(s[1..], n - 1)
  {
  }

  lemma LeftRemovedHere(items: seq<Value>, paths: seq<Path>, x: nat)
    requires paths != [] && |paths[0]| == 1 && FirstIs(paths[0], x) && x < |items|
    requires ReachesUpTo(paths[1..], x)
    ensures Left(items, x, paths) == Left(WithoutIndex(items, x), x, paths[1..])
  {
    LeftBeforeRemoval(items, paths, x);
    LeftAfterRemoval(WithoutIndex(items, x), paths[1..], x);
    assert WithoutIndex(items, x)[x..] == items[x + 1..];
  }

  lemma NotHere(paths: seq<Path>, x: nat, i: nat)
    requires paths != [] && |paths[0]| == 1 && FirstIs(paths[0], x) && i != x
    ensures Below(paths, At(i)) == Below(paths[1..], At(i))
    ensures Hits(paths, At(i)) == Hits(paths[1..], At(i))
  {
    FirstLocation(paths, At(i));
  }

  /** Two lists of which the loop leaves the same from an index on. */
  predicate SameLeft(items: seq<Value>, paths: seq<Path>, items': seq<Value>, rest: seq<Path>, i: nat) {
    Left(items, i, paths) == Left(items', i, rest)
  }

  lemma {:induction false} Backwards(same: seq<bool>, x: nat, i: nat)
    requires i <= x < |same| && same[x]
    requires forall k, k' :: 0 <= k && k' == k + 1 <= x && same[k'] ==> same[k]
    ensures same[i]
    decreases x - i
  {
    if i < x {
      Backwards(same, x, i + 1);
    }
  }

  /** Two lists of locations that say the same about the elements before `x`. */
  ghost predicate AlikeBefore(paths: seq<Path>, rest: seq<Path>, x: nat) {
    forall i: nat :: i < x ==> Hits(paths, At(i)) == Hits(rest, At(i)) && Below(paths, At(i)) == Below(rest, At(i))
  }

  lemma {:induction false} LeftSameBefore(items: seq<Value>, items': seq<Value>, paths: seq<Path>, rest: seq<Path>,
                                          x: nat, i: nat)
    requires AlikeBefore(paths, rest, x) && i < x
    requires x <= |items| && x <= |items'| && items'[..x] == items[..x]
    requires SameLeft(items, paths, items', rest, i + 1)
    ensures SameLeft(items, paths, items', rest, i)
  {
    assert items'[i] == items'[..x][i] && items[i] == items[..x][i];
    LeftStep(items, items', i, paths, rest);
  }

  /** Before the removed element nothing changes. */
  lemma {:induction false} LeftRemoved(items: seq<Value>, items': seq<Value>, paths: seq<Path>, rest: seq<Path>,
                                       x: nat, i: nat)
    requires AlikeBefore(paths, rest, x) && i <= x
    requires x <= |items| && x <= |items'| && items'[..x] == items[..x]
    requires SameLeft(items, paths, items', rest, x)
    ensures SameLeft(items, paths, items', rest, i)
  {
    var same := seq(x + 1, k requires 0 <= k => SameLeft(items, paths, items', rest, k));
    forall k, k' | 0 <= k && k' == k + 1 <= x && same[k'] ensures same[k] {
      LeftSameBefore(items, items', paths, rest, x, k);
    }
    Backwards(same, x, i);
  }

  lemma RestAlike(paths: seq<Path>, x: nat)
    requires paths != [] && |paths[0]| == 1 && FirstIs(paths[0], x)
    ensures AlikeBefore(paths, paths[1..], x)
  {
    forall i: nat | i < x
      ensures Hits(paths, At(i)) == Hits(paths[1..], At(i)) && Below(paths, At(i)) == Below(paths[1..], At(i))
    {
      NotHere(paths, x, i);
    }
  }

  lemma {:induction false} RemoveEachArray(items: seq<Value>, paths: seq<Path>)
    requires IndicesDescend(paths)
    ensures RemoveEach(Array(items), paths) == Array(Left(items, 0, paths))
    decreases |paths|
  {
    if paths == [] {
      LeftUntouched(items, 0, paths);
    } else {
      var p := paths[0];
      var items' := RemoveAt(Array(items), p).items;
      RestDescends(paths);
      RemoveEachArray(items', paths[1..]);
      if |p| != 1 || Index(items, p[0]).None? {
        LeftInside(items, items', paths, 0);
      } else {
        var x := Index(items, p[0]).value;
        RestBelow(paths, x);
        LeftRemovedHere(items, paths, x);
        RestAlike(paths, x);
        LeftRemoved(items, items', paths, paths[1..], x, 0);
      }
    }
  }

  lemma RestDescends(paths: seq<Path>)
    requires paths != [] && IndicesDescend(paths)
    ensures IndicesDescend(paths[1..])
  {
    var rest := paths[1..];
    forall i, j, x, y | 0 <= i < j < |rest| && FirstIs(rest[i], x) && FirstIs(rest[j], y)
      ensures x > y || (x == y && (|rest[i]| > 1 || |rest[j]| == 1))
    {
      assert paths[i + 1] == rest[i] && paths[j + 1] == rest[j];
    }
  }

  // ----- the order the loop needs -----

  /** At every array of the tree that the locations reach, higher indices come first, and
      what lies below an element before the element itself. Tables ask for no order. */
  ghost predicate InOrder(v: Value, paths: seq<Path>) {
    match v
    case Table(t) => forall k :: k in t ==> InOrder(t[k], Below(paths, Key(k)))
    case Array(a) => IndicesDescend(paths) && forall i :: 0 <= i < |a| ==> InOrder(a[i], Below(paths, At(i)))
    case _ => true
  }

  /** The order of `resolve` is such an order, for every tree. */
  lemma {:induction false} DescendingInOrder(v: Value, paths: seq<Path>)
    requires Descending(paths)
    ensures InOrder(v, paths)
  {
    match v
    case Table(t) =>
      forall k | k in t ensures InOrder(t[k], Below(paths, Key(k))) {
        DescendingBelow(paths, Key(k));
        DescendingInOrder(t[k], Below(paths, Key(k)));
      }
    case Array(a) =>
      DescendingIndices(paths);
      forall i | 0 <= i < |a| ensures InOrder(a[i], Below(paths, At(i))) {
        DescendingBelow(paths, At(i));
        DescendingInOrder(a[i], Below(paths, At(i)));
      }
    case _ =>
  }

  /** No array of the tree holds two of the locations. */
  ghost predicate OnePerArray(v: Value, paths: seq<Path>) {
    match v
    case Table(t) => forall k :: k in t ==> OnePerArray(t[k], Below(paths, Key(k)))
    case Array(_) => |paths| <= 1
    case _ => true
  }

  lemma {:induction false} BelowShorter(paths: seq<Path>, step: Step)
    ensures |Below(paths, step)| <= |paths|
  {
    if paths != [] {
      BelowShorter(paths[1..], step);
    }
  }

  /** Then any order will do. */
  lemma {:induction false} OneInOrder(v: Value, paths: seq<Path>)
    requires OnePerArray(v, paths) || |paths| <= 1
    ensures InOrder(v, paths)
  {
    match v
    case Table(t) =>
      forall k | k in t ensures InOrder(t[k], Below(paths, Key(k))) {
        BelowShorter(paths, Key(k));
        OneInOrder(t[k], Below(paths, Key(k)));
      }
    case Array(a) =>
      forall i | 0 <= i < |a| ensures InOrder(a[i], Below(paths, At(i))) {
        BelowShorter(paths, At(i));
        OneInOrder(a[i], Below(paths, At(i)));
      }
    case _ =>
  }

  // ----- the loop against one simultaneous removal -----

  /** An index that is listed twice takes an unflagged later sibling with it, unless no such
      sibling is left. Nothing below a flagged location matters. */
  ghost predicate Safe(v: Value, paths: seq<Path>)
    decreases v, 1
  {
    match v
    case Table(t) =>
      forall k :: k in t && Hits(paths, Key(k)) == 0 ==> Safe(t[k], Below(paths, Key(k)))
    case Array(a) =>
      forall i :: 0 <= i < |a| ==> SafeAt(v, i, paths)
    case _ => true
  }

  ghost predicate SafeAt(v: Value, i: nat, paths: seq<Path>)
    requires v.Array? && i < |v.items|
    decreases v, 0
  {
    && (Hits(paths, At(i)) == 0 ==> Safe(v.items[i], Below(paths, At(i))))
    && (Hits(paths, At(i)) > 1 ==> forall j :: i < j < |v.items| ==> Hits(paths, At(j)) > 0)
  }

  ghost predicate SafeFrom(v: Value, i: nat, paths: seq<Path>)
    requires v.Array?
  {
    forall j :: i <= j < |v.items| ==> SafeAt(v, j, paths)
  }

  lemma {:induction false} KeptAll(v: Value, i: nat, paths: seq<Path>)
    requires v.Array? && i <= |v.items|
    ensures Kept(v, i, paths) == [] <==> forall j :: i <= j < |v.items| ==> Hits(paths, At(j)) > 0
    decreases |v.items| - i
  {
    if i < |v.items| {
      KeptAll(v, i + 1, paths);
    }
  }

  lemma ConsEqual(x: Value, xs: seq<Value>, y: Value, ys: seq<Value>)
    ensures [x] + xs == [y] + ys <==> x == y && xs == ys
  {
    assert ([x] + xs)[1..] == xs && ([y] + ys)[1..] == ys;
    assert ([x] + xs)[0] == x && ([y] + ys)[0] == y;
  }

  lemma SafeFromStep(v: Value, i: nat, paths: seq<Path>)
    requires v.Array? && i < |v.items|
    ensures SafeFrom(v, i, paths) <==> SafeAt(v, i, paths) && SafeFrom(v, i + 1, paths)
  {
  }

  /** From index `i` on, the loop leaves no more than the simultaneous removal, and the same
      exactly when it is safe. */
  ghost predicate ExactFrom(v: Value, i: nat, paths: seq<Path>)
    requires v.Array? && i <= |v.items|
  {
    && |Left(v.items, i, paths)| <= |Kept(v, i, paths)|
    && (Left(v.items, i, paths) == Kept(v, i, paths) <==> SafeFrom(v, i, paths))
  }

  lemma ExactKept(v: Value, i: nat, paths: seq<Path>)
    requires v.Array? && i < |v.items| && Hits(paths, At(i)) == 0 && ExactFrom(v, i + 1, paths)
    requires var x, below := v.items[i], Below(paths, At(i));
             RemoveEach(x, below) == RemoveAll(x, below) <==> Safe(x, below)
    ensures ExactFrom(v, i, paths)
  {
    var x, below := v.items[i], Below(paths, At(i));
    var later, kept := Left(v.items, i + 1, paths), Kept(v, i + 1, paths);
    SafeFromStep(v, i, paths);
    LeftUnfold(v.items, i, paths);
    ConsEqual(RemoveEach(x, below), later, RemoveAll(x, below), kept);
  }

  lemma ExactHit(v: Value, i: nat, paths: seq<Path>)
    requires v.Array? && i < |v.items| && Hits(paths, At(i)) > 0 && ExactFrom(v, i + 1, paths)
    ensures ExactFrom(v, i, paths)
  {
    var later, kept := Left(v.items, i + 1, paths), Kept(v, i + 1, paths);
    SafeFromStep(v, i, paths);
    LeftUnfold(v.items, i, paths);
    if Hits(paths, At(i)) > 1 {
      KeptAll(v, i + 1, paths);
      DropEqual(later, kept, Hits(paths, At(i)) - 1);
    }
  }

  lemma {:induction false} ArrayExactly(v: Value, i: nat, paths: seq<Path>)
    requires v.Array? && i <= |v.items| && InOrder(v, paths)
    ensures ExactFrom(v, i, paths)
    decreases v, 0, |v.items| - i
  {
    if i < |v.items| {
      ArrayExactly(v, i + 1, paths);
      if Hits(paths, At(i)) == 0 {
        LoopExactly(v.items[i], Below(paths, At(i)));
        ExactKept(v, i, paths);
      } else {
        ExactHit(v, i, paths);
      }
    }
  }

  /** Dropping elements of a list gives one that is not shorter only if there is nothing. */
  lemma DropEqual(xs: seq<Value>, ys: seq<Value>, n: nat)
    requires n > 0 && |xs| <= |ys|
    ensures |Drop(xs, n)| <= |ys|
    ensures Drop(xs, n) == ys <==> ys == []
  {
  }

  /** Pruning one location after the other, higher indices first, gives exactly the tree with
      all of them removed at once, if and only if no index listed twice has an unflagged
      later sibling. */
  lemma {:induction false} LoopExactly(v: Value, paths: seq<Path>)
    requires InOrder(v, paths)
    ensures RemoveEach(v, paths) == RemoveAll(v, paths) <==> Safe(v, paths)
    decreases v, 1
  {
    match v
    case Table(t) =>
      RemoveEachTable(t, paths);
      var l, r := TableLeft(t, paths), RemoveAll(v, paths).entries;
      assert l.Keys == r.Keys;
      forall k | k in l ensures l[k] == r[k] <==> Safe(t[k], Below(paths, Key(k))) {
        LoopExactly(t[k], Below(paths, Key(k)));
      }
      if Safe(v, paths) {
        assert l == r;
      } else {
        var k :| k in t && Hits(paths, Key(k)) == 0 && !Safe(t[k], Below(paths, Key(k)));
        assert k in l;
      }
    case Array(a) =>
      RemoveEachArray(a, paths);
      ArrayExactly(v, 0, paths);
    case _ =>
      RemoveEachScalar(v, paths);
  }

  lemma {:induction false} RemoveEachScalar(v: Value, paths: seq<Path>)
    requires !IsContainer(v)
    ensures RemoveEach(v, paths) == v
    decreases |paths|
  {
    if paths != [] {
      RemoveEachScalar(v, paths[1..]);
    }
  }

  // ----- what a caller can rely on -----

  /** The locations are pairwise different, also as indices: `1` and `01` are the same. */
  ghost predicate DistinctLocations(paths: seq<Path>) {
    forall i, j :: 0 <= i < j < |paths| ==> !SameLocation(paths[i], paths[j])
  }

  lemma DistinctRest(paths: seq<Path>)
    requires DistinctLocations(paths) && paths != []
    ensures DistinctLocations(paths[1..])
    ensures forall q :: q in paths[1..] ==> !SameLocation(paths[0], q)
  {
    var rest := paths[1..];
    forall i, j | 0 <= i < j < |rest| ensures !SameLocation(rest[i], rest[j]) {
      assert rest[i] == paths[i + 1] && rest[j] == paths[j + 1];
    }
    forall q | q in rest ensures !SameLocation(paths[0], q) {
      var k :| 0 <= k < |rest| && rest[k] == q;
      assert paths[k + 1] == q;
    }
  }

  /** Locations that agree on a first segment are the same when their remainders are. */
  lemma SameThroughStep(p: Path, q: Path, step: Step)
    requires p != [] && q != [] && Names(p[0], step) && Names(q[0], step)
    ensures SameLocation(p[1..], q[1..]) ==> SameLocation(p, q)
  {
    if SameLocation(p[1..], q[1..]) {
      forall i | 0 <= i < |p| ensures SameSegment(p[i], q[i]) {
        assert i > 0 ==> SameSegment(p[1..][i - 1], q[1..][i - 1]);
      }
    }
  }

  lemma {:induction false} DistinctHits(paths: seq<Path>, step: Step)
    requires DistinctLocations(paths)
    ensures Hits(paths, step) <= 1
  {
    if paths != [] {
      var p, rest := paths[0], paths[1..];
      DistinctRest(paths);
      DistinctHits(rest, step);
      if |p| == 1 && Names(p[0], step) {
        HitsMember(rest, step);
        forall q | q in rest && |q| == 1 ensures !Names(q[0], step) {
          if Names(q[0], step) {
            SameThroughStep(p, q, step);
            assert false;
          }
        }
      }
    }
  }

  lemma {:induction false} DistinctBelow(paths: seq<Path>, step: Step)
    requires DistinctLocations(paths)
    ensures DistinctLocations(Below(paths, step))
  {
    if paths != [] {
      var p, rest := paths[0], paths[1..];
      var b := Below(rest, step);
      DistinctRest(paths);
      DistinctBelow(rest, step);
      if |p| > 1 && Names(p[0], step) {
        forall j | 0 <= j < |b| ensures !SameLocation(p[1..], b[j]) {
          assert b[j] in b;
          BelowMember(rest, step, b[j]);
          var q :| q in rest && |q| > 1 && Names(q[0], step) && q[1..] == b[j];
          SameThroughStep(p, q, step);
        }
        assert Below(paths, step) == [p[1..]] + b;
      } else {
        assert Below(paths, step) == b;
      }
    }
  }

  lemma {:induction false} DistinctIsSafe(v: Value, paths: seq<Path>)
    requires DistinctLocations(paths)
    ensures Safe(v, paths)
  {
    match v
    case Table(t) =>
      forall k | k in t ensures Safe(t[k], Below(paths, Key(k))) {
        DistinctBelow(paths, Key(k));
        DistinctIsSafe(t[k], Below(paths, Key(k)));
      }
    case Array(a) =>
      forall i | 0 <= i < |a| ensures SafeAt(v, i, paths) {
        DistinctHits(paths, At(i));
        DistinctBelow(paths, At(i));
        DistinctIsSafe(a[i], Below(paths, At(i)));
      }
    case _ =>
  }

  /** Removing all locations at once does not depend on how they are listed. */
  lemma {:induction false} RemoveAllUnordered(v: Value, paths: seq<Path>, others: seq<Path>)
    requires forall p :: p in paths <==> p in others
    ensures RemoveAll(v, paths) == RemoveAll(v, others)
    decreases v, 1
  {
    match v
    case Table(t) =>
      forall k | k in t
        ensures Hits(paths, Key(k)) == 0 <==> Hits(others, Key(k)) == 0
        ensures RemoveAll(t[k], Below(paths, Key(k))) == RemoveAll(t[k], Below(others, Key(k)))
      {
        SameMembers(paths, others, Key(k));
        RemoveAllUnordered(t[k], Below(paths, Key(k)), Below(others, Key(k)));
      }
      assert RemoveAll(v, paths).entries == RemoveAll(v, others).entries;
    case Array(a) =>
      KeptUnordered(v, 0, paths, others);
    case _ =>
  }

  lemma SameMembers(paths: seq<Path>, others: seq<Path>, step: Step)
    requires forall p :: p in paths <==> p in others
    ensures Hits(paths, step) == 0 <==> Hits(others, step) == 0
    ensures forall q :: q in Below(paths, step) <==> q in Below(others, step)
  {
    HitsMember(paths, step);
    HitsMember(others, step);
    forall q ensures q in Below(paths, step) <==> q in Below(others, step) {
      BelowMember(paths, step, q);
      BelowMember(others, step, q);
    }
  }

  lemma {:induction false} KeptUnordered(v: Value, i: nat, paths: seq<Path>, others: seq<Path>)
    requires v.Array? && i <= |v.items|
    requires forall p :: p in paths <==> p in others
    ensures Kept(v, i, paths) == Kept(v, i, others)
    decreases v, 0, |v.items| - i
  {
    if i < |v.items| {
      SameMembers(paths, others, At(i));
      RemoveAllUnordered(v.items[i], Below(paths, At(i)), Below(others, At(i)));
      KeptUnordered(v, i + 1, paths, others);
    }
  }
}
