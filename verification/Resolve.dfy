/** The whole pipeline that turns configuration layers into the effective configuration
    (crates/config/src/loader.rs). */
module Resolve {
  import opened Values
  import opened Text
  import opened Merge
  import opened Layers
  import opened Runtime
  import opened Pointers
  import opened Prune
  import opened ListOrder
  import opened TomlJson
  import opened Validation

  // ----- sorting the flagged fields -----

  function CompareFields(a: string, b: string): Ordering {
    ComparePaths(Split(a, '/'), Split(b, '/'))
  }

  /** No field before a greater one. */
  ghost predicate FieldsDescend(fields: seq<string>) {
    forall i, j :: 0 <= i < j < |fields| ==> CompareFields(fields[i], fields[j]) != Less
  }

  /** No three fields straddle each other, so the comparison is a total preorder on them. */
  ghost predicate FieldsCoherent(fields: set<string>) {
    forall a, b, c :: a in fields && b in fields && c in fields ==>
      Coherent(Split(a, '/'), Split(b, '/'), Split(c, '/'))
  }

  lemma UniformFieldsCoherent(fields: set<string>)
    requires forall a, b :: a in fields && b in fields ==> Uniform(Split(a, '/'), Split(b, '/'))
    ensures FieldsCoherent(fields)
  {
    forall a, b, c | a in fields && b in fields && c in fields
      ensures Coherent(Split(a, '/'), Split(b, '/'), Split(c, '/'))
    {
      UniformIsCoherent(Split(a, '/'), Split(b, '/'), Split(c, '/'));
    }
  }

  lemma FieldsTransitive(a: string, b: string, c: string, fields: set<string>)
    requires FieldsCoherent(fields) && a in fields && b in fields && c in fields
    requires CompareFields(a, b) != Less && CompareFields(b, c) != Less
    ensures CompareFields(a, c) != Less
  {
    ComparePathsReversed(Split(a, '/'), Split(b, '/'));
    ComparePathsReversed(Split(b, '/'), Split(c, '/'));
    ComparePathsReversed(Split(a, '/'), Split(c, '/'));
    ComparePathsTransitive(Split(c, '/'), Split(b, '/'), Split(a, '/'));
  }

  type Comparison = (string, string) -> Ordering

  /** A comparison that never contradicts that of the fields, but may call more of them equal. */
  ghost predicate Coarser(cmp: Comparison) {
    forall a, b :: (cmp(a, b) == CompareFields(a, b) || cmp(a, b) == Equal) && cmp(b, a) == Reversed(cmp(a, b))
  }

  ghost predicate TransitiveOver(cmp: Comparison, fields: set<string>) {
    forall a, b, c :: a in fields && b in fields && c in fields && cmp(a, b) != Less && cmp(b, c) != Less
      ==> cmp(a, c) != Less
  }

  ghost predicate Descends(cmp: Comparison, fields: seq<string>) {
    forall i, j :: 0 <= i < j < |fields| ==> cmp(fields[i], fields[j]) != Less
  }

  ghost predicate NeighboursDescend(fields: seq<string>) {
    forall i :: 0 <= i < |fields| - 1 ==> CompareFields(fields[i], fields[i + 1]) != Less
  }

  /** Every coarser comparison that is an order on the fields puts the list in order. */
  ghost predicate RespectsOrders(all: set<string>, fields: seq<string>) {
    forall cmp: Comparison :: Coarser(cmp) && TransitiveOver(cmp, all) ==> Descends(cmp, fields)
  }

  /** The comparison itself is one of them where no fields straddle. */
  lemma CoherentFieldsDescend(all: set<string>, fields: seq<string>)
    requires RespectsOrders(all, fields) && FieldsCoherent(all)
    ensures FieldsDescend(fields)
  {
    assert Coarser(CompareFields) by {
      forall a, b ensures CompareFields(b, a) == Reversed(CompareFields(a, b)) {
        ComparePathsReversed(Split(a, '/'), Split(b, '/'));
      }
    }
    forall a, b, c | a in all && b in all && c in all && CompareFields(a, b) != Less && CompareFields(b, c) != Less
      ensures CompareFields(a, c) != Less
    {
      FieldsTransitive(a, b, c, all);
    }
    assert TransitiveOver(CompareFields, all);
    assert Descends(CompareFields, fields);
  }

  method IsLess(a: string, b: string) returns (less: bool)
    ensures less <==> CompareFields(a, b) == Less
  {
    var o := FieldPathCmp(a, b);
    less := o == Less;
  }

  /** Behind everything that is not less: the stable position. */
  method InsertPosition(sorted: seq<string>, f: string) returns (pos: nat)
    ensures pos <= |sorted|
    ensures pos > 0 ==> CompareFields(sorted[pos - 1], f) != Less
    ensures forall j :: pos <= j < |sorted| ==> CompareFields(sorted[j], f) == Less
  {
    pos := |sorted|;
    while pos > 0
      invariant pos <= |sorted|
      invariant forall j :: pos <= j < |sorted| ==> CompareFields(sorted[j], f) == Less
    {
      var less := IsLess(sorted[pos - 1], f);
      if !less {
        return;
      }
      pos := pos - 1;
    }
  }

  method InsertField(sorted: seq<string>, f: string, ghost all: set<string>)
    returns (result: seq<string>)
    requires RespectsOrders(all, sorted)
    requires f in all && forall g :: g in sorted ==> g in all
    ensures multiset(result) == multiset(sorted) + multiset{f}
    ensures RespectsOrders(all, result)
    ensures sorted == [] || CompareFields(sorted[|sorted| - 1], f) != Less ==> result == sorted + [f]
  {
    var pos := InsertPosition(sorted, f);
    result := sorted[..pos] + [f] + sorted[pos..];
    InsertContents(sorted, f, pos);
    forall cmp: Comparison | Coarser(cmp) && TransitiveOver(cmp, all) ensures Descends(cmp, result) {
      InsertKeepsOrder(sorted, f, pos, all, cmp);
    }
  }

  lemma InsertContents(sorted: seq<string>, f: string, pos: nat)
    requires pos <= |sorted|
    ensures multiset(sorted[..pos] + [f] + sorted[pos..]) == multiset(sorted) + multiset{f}
  {
    assert sorted == sorted[..pos] + sorted[pos..];
  }

  lemma InsertKeepsOrder(sorted: seq<string>, f: string, pos: nat, all: set<string>, cmp: Comparison)
    requires Coarser(cmp) && TransitiveOver(cmp, all) && Descends(cmp, sorted)
    requires f in all && forall g :: g in sorted ==> g in all
    requires pos <= |sorted|
    requires pos > 0 ==> CompareFields(sorted[pos - 1], f) != Less
    requires forall j :: pos <= j < |sorted| ==> CompareFields(sorted[j], f) == Less
    ensures Descends(cmp, sorted[..pos] + [f] + sorted[pos..])
  {
    var result := sorted[..pos] + [f] + sorted[pos..];
    forall i, j | 0 <= i < j < |result| ensures cmp(result[i], result[j]) != Less {
      if j == pos {
        NotLessThan(sorted, f, pos, all, cmp, i);
      } else if i == pos {
        assert cmp(f, sorted[j - 1]) == Reversed(cmp(sorted[j - 1], f));
      } else {
        var i', j' := if i < pos then i else i - 1, if j < pos then j else j - 1;
        assert cmp(sorted[i'], sorted[j']) != Less;
      }
    }
  }

  lemma NotLessThan(sorted: seq<string>, f: string, pos: nat, all: set<string>, cmp: Comparison, i: nat)
    requires Coarser(cmp) && TransitiveOver(cmp, all) && Descends(cmp, sorted)
    requires f in all && forall g :: g in sorted ==> g in all
    requires i < pos <= |sorted| && CompareFields(sorted[pos - 1], f) != Less
    ensures cmp(sorted[i], f) != Less
  {
    assert cmp(sorted[pos - 1], f) != Less;
    if i < pos - 1 {
      assert cmp(sorted[i], sorted[pos - 1]) != Less;
    }
  }

  /** A stable insertion sort, greatest first. It respects every coarser order on the fields,
      so also the whole comparison where that is one, and leaves a list alone in which no field
      stands before a greater neighbour. */
  method SortDescending(fields: seq<string>) returns (sorted: seq<string>)
    ensures multiset(sorted) == multiset(fields)
    ensures RespectsOrders((set f | f in fields), sorted)
    ensures FieldsCoherent(set f | f in fields) ==> FieldsDescend(sorted)
    ensures NeighboursDescend(fields) ==> sorted == fields
  {
    ghost var all := set f | f in fields;
    sorted := [];
    for i := 0 to |fields|
      invariant multiset(sorted) == multiset(fields[..i])
      invariant RespectsOrders(all, sorted)
      invariant NeighboursDescend(fields) ==> sorted == fields[..i]
    {
      SortedSoFar(fields, i, sorted);
      sorted := InsertField(sorted, fields[i], all);
    }
    assert fields[..|fields|] == fields;
    if FieldsCoherent(all) {
      CoherentFieldsDescend(all, sorted);
    }
  }

  /** Before the next field is inserted. */
  lemma SortedSoFar(fields: seq<string>, i: nat, sorted: seq<string>)
    requires i < |fields| && multiset(sorted) == multiset(fields[..i])
    ensures fields[..i + 1] == fields[..i] + [fields[i]]
    ensures forall g :: g in sorted ==> g in fields
    ensures NeighboursDescend(fields) && sorted == fields[..i] && sorted != [] ==>
              CompareFields(sorted[|sorted| - 1], fields[i]) != Less
  {
    forall g | g in sorted ensures g in fields {
      assert g in multiset(sorted);
      assert g in fields[..i];
    }
  }

  // ----- the prune loop on rendered fields -----

  /** The fields the validator reports for the locations it flags. */
  function Rendered(paths: seq<Path>): (fields: seq<string>)
    ensures |fields| == |paths|
    ensures forall i :: 0 <= i < |paths| ==> fields[i] == Pointer(paths[i])
  {
    seq(|paths|, i requires 0 <= i < |paths| => Pointer(paths[i]))
  }

  /** The locations the fields name, without those a prune ignores. */
  function Located(fields: seq<string>): seq<Path> {
    if fields == [] then []
    else LocatedOne(fields[0]) + Located(fields[1..])
  }

  function LocatedOne(field: string): seq<Path> {
    match Segments(field)
    case None => []
    case Some(path) => [path]
  }

  ghost predicate IsRendered(field: string) {
    exists path: Path :: field == Pointer(path)
  }

  method PruneFields(v: Value, fields: seq<string>) returns (result: Value)
    ensures result == RemoveEach(v, Located(fields))
  {
    result := v;
    for i := 0 to |fields|
      invariant RemoveEach(v, Located(fields)) == RemoveEach(result, Located(fields[i..]))
    {
      var removed;
      assert fields[i..][1..] == fields[i + 1..];
      var rest := Located(fields[i + 1..]);
      assert Segments(fields[i]).Some? ==> ([Segments(fields[i]).value] + rest)[1..] == rest;
      assert [] + rest == rest;
      result, removed := PruneInvalidField(result, fields[i]);
    }
  }

  lemma CompareRendered(p: Path, q: Path)
    ensures CompareFields(Pointer(p), Pointer(q)) == ComparePaths(EscapeAll(p), EscapeAll(q))
  {
    SplitRendered(p);
    SplitRendered(q);
    CompareSegmentsReversed("", "");
    var l, r := [""] + EscapeAll(p), [""] + EscapeAll(q);
    assert l[1..] == EscapeAll(p) && r[1..] == EscapeAll(q);
  }

  lemma SplitRendered(p: Path)
    ensures Split(Pointer(p), '/') == [""] + EscapeAll(p)
  {
    if p == [] {
      assert [""] + EscapeAll(p) == [""];
    } else {
      PointerSplit(p);
    }
  }

  lemma {:induction false} LocatedMember(fields: seq<string>, path: Path)
    ensures path in Located(fields) <==> exists f :: f in fields && Segments(f) == Some(path)
  {
    if fields != [] {
      LocatedMember(fields[1..], path);
      assert forall f :: f in fields <==> f == fields[0] || f in fields[1..];
    }
  }

  /** A located field comes from a field. */
  lemma LocatedFrom(fields: seq<string>, j: nat) returns (m: nat)
    requires j < |Located(fields)|
    ensures m < |fields| && Segments(fields[m]) == Some(Located(fields)[j])
  {
    var path := Located(fields)[j];
    assert path in Located(fields);
    LocatedMember(fields, path);
    m :| 0 <= m < |fields| && Segments(fields[m]) == Some(path);
  }

  /** Two located fields come from two fields in the same order. */
  lemma {:induction false} LocatedPair(fields: seq<string>, i: nat, j: nat) returns (k: nat, m: nat)
    requires i < j < |Located(fields)|
    ensures k < m < |fields|
    ensures Segments(fields[k]) == Some(Located(fields)[i]) && Segments(fields[m]) == Some(Located(fields)[j])
  {
    var head, rest := LocatedOne(fields[0]), fields[1..];
    assert Located(fields) == head + Located(rest);
    if i < |head| {
      m := LocatedFrom(rest, j - |head|);
      k, m := 0, m + 1;
    } else {
      k, m := LocatedPair(rest, i - |head|, j - |head|);
      k, m := k + 1, m + 1;
    }
  }

  /** Sorting the rendered fields sorts the locations. */
  lemma LocatedDescend(fields: seq<string>)
    requires FieldsDescend(fields)
    requires forall f :: f in fields ==> IsRendered(f)
    ensures Descending(Located(fields))
  {
    var ls := Located(fields);
    forall i, j | 0 <= i < j < |ls| ensures ComparePaths(EscapeAll(ls[i]), EscapeAll(ls[j])) != Less {
      var k, m := LocatedPair(fields, i, j);
      assert fields[k] in fields && fields[m] in fields;
      var p: Path :| fields[k] == Pointer(p);
      var q: Path :| fields[m] == Pointer(q);
      PointerRoundTrip(p);
      PointerRoundTrip(q);
      CompareRendered(p, q);
      assert CompareFields(fields[k], fields[m]) != Less;
    }
  }

  /** The comparison of fields along the way to a list. */
  function AlongFields(along: Path): Comparison {
    (a: string, b: string) => CompareAlong([""] + EscapeAll(along), Split(a, '/'), Split(b, '/'))
  }

  lemma AlongFieldsCoarser(along: Path)
    ensures Coarser(AlongFields(along))
  {
    var way := [""] + EscapeAll(along);
    forall a, b
      ensures CompareAlong(way, Split(a, '/'), Split(b, '/')) == CompareFields(a, b) ||
              CompareAlong(way, Split(a, '/'), Split(b, '/')) == Equal
      ensures CompareAlong(way, Split(b, '/'), Split(a, '/')) ==
              Reversed(CompareAlong(way, Split(a, '/'), Split(b, '/')))
    {
      AlongIsCoarser(way, Split(a, '/'), Split(b, '/'));
      AlongReversed(way, Split(a, '/'), Split(b, '/'));
    }
  }

  lemma AlongRendered(along: Path, p: Path, q: Path)
    ensures AlongFields(along)(Pointer(p), Pointer(q)) == CompareAlong(EscapeAll(along), EscapeAll(p), EscapeAll(q))
  {
    SplitRendered(p);
    SplitRendered(q);
    RootSegment(EscapeAll(along), EscapeAll(p), EscapeAll(q));
  }

  /** The empty segment in front of every rendered pointer makes no difference. */
  lemma RootSegment(along: seq<string>, p: seq<string>, q: seq<string>)
    ensures CompareAlong([""] + along, [""] + p, [""] + q) == CompareAlong(along, p, q)
  {
    CompareSegmentsReversed("", "");
    assert ([""] + along)[1..] == along && ([""] + p)[1..] == p && ([""] + q)[1..] == q;
  }

  /** No three of the flagged locations straddle each other on the way to a list or among its
      elements. */
  ghost predicate CoherentList(along: Path, flagged: seq<Path>) {
    forall p, q, r :: p in flagged && q in flagged && r in flagged ==>
      CoherentAlong(EscapeAll(along), EscapeAll(p), EscapeAll(q), EscapeAll(r))
  }

  lemma RenderedFrom(flagged: seq<Path>, f: string) returns (p: Path)
    requires f in Rendered(flagged)
    ensures p in flagged && f == Pointer(p)
  {
    var i :| 0 <= i < |flagged| && Rendered(flagged)[i] == f;
    p := flagged[i];
  }

  lemma AlongFieldsTransitive(along: Path, flagged: seq<Path>)
    requires CoherentList(along, flagged)
    ensures TransitiveOver(AlongFields(along), set f | f in Rendered(flagged))
  {
    var cmp := AlongFields(along);
    forall a, b, c | a in Rendered(flagged) && b in Rendered(flagged) && c in Rendered(flagged) &&
                     cmp(a, b) != Less && cmp(b, c) != Less
      ensures cmp(a, c) != Less
    {
      var p := RenderedFrom(flagged, a);
      var q := RenderedFrom(flagged, b);
      var r := RenderedFrom(flagged, c);
      AlongRendered(along, p, q);
      AlongRendered(along, q, r);
      AlongRendered(along, p, r);
      AlongTransitive(EscapeAll(along), EscapeAll(p), EscapeAll(q), EscapeAll(r));
    }
  }

  /** The sort gets every list right that nothing straddles on the way, whatever the
      comparison does to the rest of the fields. */
  lemma LocatedDescendAlong(along: Path, flagged: seq<Path>, sorted: seq<string>)
    requires CoherentList(along, flagged)
    requires RespectsOrders((set f | f in Rendered(flagged)), sorted)
    requires multiset(sorted) == multiset(Rendered(flagged))
    ensures DescendsAlong(along, Located(sorted))
  {
    var cmp, ls := AlongFields(along), Located(sorted);
    AlongFieldsCoarser(along);
    AlongFieldsTransitive(along, flagged);
    assert Descends(cmp, sorted);
    forall i, j | 0 <= i < j < |ls|
      ensures CompareAlong(EscapeAll(along), EscapeAll(ls[i]), EscapeAll(ls[j])) != Less
    {
      var k, m := LocatedPair(sorted, i, j);
      assert sorted[k] in multiset(sorted) && sorted[m] in multiset(sorted);
      var p := RenderedFrom(flagged, sorted[k]);
      var q := RenderedFrom(flagged, sorted[m]);
      PointerRoundTrip(p);
      PointerRoundTrip(q);
      AlongRendered(along, p, q);
      assert cmp(sorted[k], sorted[m]) != Less;
    }
  }

  // ----- the order of the list does not matter to the outcome -----

  lemma {:induction false} HitsBelowConcat(xs: seq<Path>, ys: seq<Path>, step: Step)
    ensures Hits(xs + ys, step) == Hits(xs, step) + Hits(ys, step)
    ensures Below(xs + ys, step) == Below(xs, step) + Below(ys, step)
  {
    if xs == [] {
      assert xs + ys == ys;
    } else {
      var x, rest := xs[0], xs[1..];
      assert xs == [x] + rest && xs + ys == [x] + (rest + ys);
      HitsBelowConcat(rest, ys, step);
      assert xs[1..] == rest && (xs + ys)[1..] == rest + ys;
      Associative(BelowOne(x, step), Below(rest, step), Below(ys, step));
    }
  }

  lemma Associative<T>(a: seq<T>, b: seq<T>, c: seq<T>)
    ensures a + (b + c) == (a + b) + c
  {
  }

  /** A permutation of a non-empty list has its first element somewhere, and the rest of the
      list around it. */
  lemma TakeOut<T>(xs: seq<T>, ys: seq<T>) returns (before: seq<T>, after: seq<T>)
    requires xs != [] && multiset(xs) == multiset(ys)
    ensures ys == before + ([xs[0]] + after)
    ensures multiset(xs[1..]) == multiset(before + after)
  {
    assert xs[0] in multiset(ys);
    var k :| 0 <= k < |ys| && ys[k] == xs[0];
    before, after := ys[..k], ys[k + 1..];
    assert ys == before + ([xs[0]] + after);
    assert xs == [] + ([xs[0]] + xs[1..]);
    CountAround([], xs[0], xs[1..]);
    CountAround(before, xs[0], after);
    assert [] + xs[1..] == xs[1..];
  }

  lemma CountAround<T>(before: seq<T>, x: T, after: seq<T>)
    ensures multiset(before + ([x] + after)) - multiset{x} == multiset(before + after)
  {
  }

  lemma {:induction false} HitsBelowPermuted(xs: seq<Path>, ys: seq<Path>, step: Step)
    requires multiset(xs) == multiset(ys)
    ensures Hits(xs, step) == Hits(ys, step)
    ensures multiset(Below(xs, step)) == multiset(Below(ys, step))
    decreases |xs|
  {
    if xs == [] {
      assert |multiset(ys)| == 0;
    } else {
      var x := xs[0];
      var before, after := TakeOut(xs, ys);
      assert xs == [x] + xs[1..];
      HitsBelowPermuted(xs[1..], before + after, step);
      HitsBelowConcat([x], xs[1..], step);
      HitsBelowConcat(before, [x] + after, step);
      HitsBelowConcat([x], after, step);
      HitsBelowConcat(before, after, step);
    }
  }

  lemma {:induction false} SafePermuted(v: Value, xs: seq<Path>, ys: seq<Path>)
    requires multiset(xs) == multiset(ys)
    ensures Safe(v, xs) <==> Safe(v, ys)
  {
    match v
    case Table(t) =>
      forall k | k in t
        ensures Hits(xs, Step.Key(k)) == Hits(ys, Step.Key(k))
        ensures Safe(t[k], Below(xs, Step.Key(k))) <==> Safe(t[k], Below(ys, Step.Key(k)))
      {
        HitsBelowPermuted(xs, ys, Step.Key(k));
        SafePermuted(t[k], Below(xs, Step.Key(k)), Below(ys, Step.Key(k)));
      }
    case Array(a) =>
      forall i | 0 <= i < |a| ensures Hits(xs, Step.At(i)) == Hits(ys, Step.At(i)) {
        HitsBelowPermuted(xs, ys, Step.At(i));
      }
      forall i | 0 <= i < |a| ensures SafeAt(v, i, xs) <==> SafeAt(v, i, ys) {
        HitsBelowPermuted(xs, ys, Step.At(i));
        SafePermuted(a[i], Below(xs, Step.At(i)), Below(ys, Step.At(i)));
      }
    case _ =>
  }

  lemma LocatedCons(f: string, rest: seq<string>)
    ensures Located([f] + rest) == LocatedOne(f) + Located(rest)
  {
    assert ([f] + rest)[1..] == rest;
  }

  lemma {:induction false} LocatedConcat(fs: seq<string>, gs: seq<string>)
    ensures Located(fs + gs) == Located(fs) + Located(gs)
  {
    if fs == [] {
      assert fs + gs == gs;
    } else {
      var f, rest := fs[0], fs[1..];
      assert fs == [f] + rest && fs + gs == [f] + (rest + gs);
      LocatedConcat(rest, gs);
      LocatedCons(f, rest);
      LocatedCons(f, rest + gs);
      Associative(LocatedOne(f), Located(rest), Located(gs));
    }
  }

  lemma {:induction false} LocatedPermuted(fs: seq<string>, gs: seq<string>)
    requires multiset(fs) == multiset(gs)
    ensures multiset(Located(fs)) == multiset(Located(gs))
    decreases |fs|
  {
    if fs == [] {
      assert |multiset(gs)| == 0;
    } else {
      var f := fs[0];
      var before, after := TakeOut(fs, gs);
      assert fs == [f] + fs[1..];
      LocatedPermuted(fs[1..], before + after);
      LocatedConcat([f], fs[1..]);
      LocatedConcat(before, [f] + after);
      LocatedConcat([f], after);
      LocatedConcat(before, after);
    }
  }

  /** The flagged locations that a prune does not ignore, in the order they were flagged. */
  function Prunables(flagged: seq<Path>): seq<Path> {
    if flagged == [] then []
    else (if Prunable(flagged[0]) then [flagged[0]] else []) + Prunables(flagged[1..])
  }

  lemma {:induction false} AllPrunable(flagged: seq<Path>)
    requires forall p :: p in flagged ==> Prunable(p)
    ensures Prunables(flagged) == flagged
  {
    if flagged != [] {
      AllPrunable(flagged[1..]);
    }
  }

  /** Rendering the flagged locations and reading them back loses none that can be pruned. */
  lemma {:induction false} LocatedRendered(flagged: seq<Path>)
    ensures Located(Rendered(flagged)) == Prunables(flagged)
  {
    if flagged != [] {
      PointerRoundTrip(flagged[0]);
      assert Rendered(flagged)[1..] == Rendered(flagged[1..]);
      LocatedRendered(flagged[1..]);
    }
  }

  /** The sort can be relied on for every list that holds two of the flagged locations: no
      three flagged locations straddle each other on the way to it or among its elements. */
  ghost predicate Sortable(v: Value, flagged: seq<Path>) {
    forall along: Path :: HoldsTwo(v, Prunables(flagged), along) ==> CoherentList(along, flagged)
  }

  /** In particular when no fields straddle at all, or no list holds two of the locations. */
  lemma SortableWhen(v: Value, flagged: seq<Path>)
    requires FieldsCoherent(set f | f in Rendered(flagged)) || OnePerArray(v, Prunables(flagged))
    ensures Sortable(v, flagged)
  {
    forall along: Path | HoldsTwo(v, Prunables(flagged), along) ensures CoherentList(along, flagged) {
      if OnePerArray(v, Prunables(flagged)) {
        OneHoldsNoTwo(v, Prunables(flagged), along);
        assert false;
      }
      CoherentEverywhere(along, flagged);
    }
  }

  /** The flagged locations are unambiguous around the list `section.name`: sections and the
      keys of this one are not numbers, and what is flagged in the list are its elements. What
      is flagged in other sections may be named anything. */
  predicate PlainList(section: string, name: string, p: Path) {
    && (p != [] ==> !IsNumber(p[0]))
    && (|p| > 1 && p[0] == section ==> !IsNumber(p[1]))
    && (|p| > 2 && p[0] == section && p[1] == name ==> IsNumber(p[2]))
  }

  /** Then the sort gets that list right. */
  lemma PlainListCoherent(section: string, name: string, flagged: seq<Path>)
    requires forall p :: p in flagged ==> PlainList(section, name, p)
    ensures CoherentList([section, name], flagged)
  {
    var along: Path := [section, name];
    assert EscapeAll(along)[1..] == [Escape(name)] && EscapeAll(along)[1..][1..] == [];
    forall p, q, r | p in flagged && q in flagged && r in flagged
      ensures CoherentAlong(EscapeAll(along), EscapeAll(p), EscapeAll(q), EscapeAll(r))
    {
      PlainFirst(section, name, p, q, r, EscapeAll(along));
    }
  }

  /** Two segments that are no numbers compare equal only if they are the same key. */
  lemma SameKey(x: string, y: string)
    requires !IsNumber(x)
    ensures IsNumber(Escape(x)) == IsNumber(x) && IsNumber(Escape(y)) == IsNumber(y)
    ensures SameSegment(Escape(x), Escape(y)) ==> x == y
  {
    ParseEscaped(x);
    ParseEscaped(y);
    DecodeEscape(x);
    DecodeEscape(y);
  }

  /** One level of keys that are no numbers. */
  lemma KeyLevel(key: string, p: Path, q: Path, r: Path, way: seq<string>)
    requires p != [] && q != [] && r != [] && way != [] && way[0] == Escape(key)
    requires !IsNumber(p[0]) && !IsNumber(q[0]) && !IsNumber(r[0])
    requires p[0] == q[0] == r[0] == key ==>
      CoherentAlong(way[1..], EscapeAll(p[1..]), EscapeAll(q[1..]), EscapeAll(r[1..]))
    ensures CoherentAlong(way, EscapeAll(p), EscapeAll(q), EscapeAll(r))
  {
    var ps, qs, rs := EscapeAll(p), EscapeAll(q), EscapeAll(r);
    SameKey(p[0], q[0]);
    SameKey(q[0], r[0]);
    SameKey(p[0], key);
    EqualIsSame(ps[0], qs[0]);
    EqualIsSame(qs[0], rs[0]);
    assert NoStraddleAmong(ps[0], qs[0], rs[0]);
    EscapeAllRest(p);
    EscapeAllRest(q);
    EscapeAllRest(r);
  }

  lemma PlainFirst(section: string, name: string, p: Path, q: Path, r: Path, way: seq<string>)
    requires PlainList(section, name, p) && PlainList(section, name, q) && PlainList(section, name, r)
    requires way == [Escape(section), Escape(name)]
    ensures CoherentAlong(way, EscapeAll(p), EscapeAll(q), EscapeAll(r))
  {
    if p != [] && q != [] && r != [] {
      if p[0] == q[0] == r[0] == section {
        PlainSecond(section, name, p, q, r, way[1..]);
      }
      KeyLevel(section, p, q, r, way);
    }
  }

  lemma PlainSecond(section: string, name: string, p: Path, q: Path, r: Path, way: seq<string>)
    requires p != [] && q != [] && r != [] && p[0] == q[0] == r[0] == section
    requires PlainList(section, name, p) && PlainList(section, name, q) && PlainList(section, name, r)
    requires way == [Escape(name)]
    ensures CoherentAlong(way, EscapeAll(p[1..]), EscapeAll(q[1..]), EscapeAll(r[1..]))
  {
    if |p| > 1 && |q| > 1 && |r| > 1 {
      if p[1] == q[1] == r[1] == name {
        assert way[1..] == [];
        PlainThird(p[1..][1..], q[1..][1..], r[1..][1..]);
      }
      KeyLevel(name, p[1..], q[1..], r[1..], way);
    }
  }

  lemma PlainThird(p: Path, q: Path, r: Path)
    requires (p != [] ==> IsNumber(p[0])) && (q != [] ==> IsNumber(q[0])) && (r != [] ==> IsNumber(r[0]))
    ensures CoherentAlong([], EscapeAll(p), EscapeAll(q), EscapeAll(r))
  {
    if p != [] && q != [] && r != [] {
      ParseEscaped(p[0]);
      ParseEscaped(q[0]);
      ParseEscaped(r[0]);
    }
  }

  lemma {:induction false} OneHoldsNoTwo(v: Value, paths: seq<Path>, along: Path)
    requires OnePerArray(v, paths) || |paths| <= 1
    ensures !HoldsTwo(v, paths, along)
    decreases |along|
  {
    if along != [] {
      match v
      case Table(t) =>
        if along[0] in t {
          BelowShorter(paths, Step.Key(along[0]));
          OneHoldsNoTwo(t[along[0]], Below(paths, Step.Key(along[0])), along[1..]);
        }
      case Array(a) =>
        if Index(a, along[0]).Some? {
          var i := Index(a, along[0]).value;
          BelowShorter(paths, Step.At(i));
          OneHoldsNoTwo(a[i], Below(paths, Step.At(i)), along[1..]);
        }
      case _ =>
    }
  }

  lemma CoherentEverywhere(along: Path, flagged: seq<Path>)
    requires FieldsCoherent(set f | f in Rendered(flagged))
    ensures CoherentList(along, flagged)
  {
    forall p, q, r | p in flagged && q in flagged && r in flagged
      ensures CoherentAlong(EscapeAll(along), EscapeAll(p), EscapeAll(q), EscapeAll(r))
    {
      assert Pointer(p) in Rendered(flagged) && Pointer(q) in Rendered(flagged) && Pointer(r) in Rendered(flagged) by {
        PointerRendered(flagged, p);
        PointerRendered(flagged, q);
        PointerRendered(flagged, r);
      }
      SplitRendered(p);
      SplitRendered(q);
      SplitRendered(r);
      var ps, qs, rs := EscapeAll(p), EscapeAll(q), EscapeAll(r);
      assert Coherent([""] + ps, [""] + qs, [""] + rs);
      CompareSegmentsReversed("", "");
      assert ([""] + ps)[1..] == ps && ([""] + qs)[1..] == qs && ([""] + rs)[1..] == rs;
      CoherentIsAlong(EscapeAll(along), ps, qs, rs);
    }
  }

  lemma PointerRendered(flagged: seq<Path>, p: Path)
    requires p in flagged
    ensures Pointer(p) in Rendered(flagged)
  {
    var i :| 0 <= i < |flagged| && flagged[i] == p;
    assert Rendered(flagged)[i] == Pointer(p);
  }

  lemma {:induction false} CoherentIsAlong(along: seq<string>, p: seq<string>, q: seq<string>, r: seq<string>)
    requires Coherent(p, q, r)
    ensures CoherentAlong(along, p, q, r)
  {
    if p != [] && q != [] && r != [] && along != [] &&
       CompareSegments(p[0], q[0]) == Equal && CompareSegments(q[0], r[0]) == Equal {
      CoherentIsAlong(along[1..], p[1..], q[1..], r[1..]);
    }
  }

  /** The sort-and-prune stage of `resolve`, for the locations the validator flags in any
      order: exactly the flagged locations go, if and only if no index flagged twice has an
      unflagged later sibling. */
  method PruneFlagged(v: Value, flagged: seq<Path>) returns (result: Value)
    ensures Sortable(v, flagged) ==>
      (result == RemoveAll(v, Prunables(flagged)) <==> Safe(v, Prunables(flagged)))
  {
    var errors := Rendered(flagged);
    var sorted := SortDescending(errors);
    result := PruneFields(v, sorted);
    if Sortable(v, flagged) {
      SortedListsInOrder(v, flagged, sorted);
      SortedOutcome(v, flagged, sorted);
    }
  }

  lemma SortedListsInOrder(v: Value, flagged: seq<Path>, sorted: seq<string>)
    requires Sortable(v, flagged)
    requires RespectsOrders((set f | f in Rendered(flagged)), sorted)
    requires multiset(sorted) == multiset(Rendered(flagged))
    ensures InOrder(v, Located(sorted))
  {
    LocatedRendered(flagged);
    LocatedPermuted(sorted, Rendered(flagged));
    forall along: Path | HoldsTwo(v, Located(sorted), along) ensures DescendsAlong(along, Located(sorted)) {
      HoldsTwoPermuted(v, Located(sorted), Prunables(flagged), along);
      LocatedDescendAlong(along, flagged, sorted);
    }
    ListsInOrder(v, Located(sorted));
  }

  lemma {:induction false} HoldsTwoPermuted(v: Value, xs: seq<Path>, ys: seq<Path>, along: Path)
    requires multiset(xs) == multiset(ys)
    ensures HoldsTwo(v, xs, along) == HoldsTwo(v, ys, along)
    decreases |along|
  {
    assert |multiset(xs)| == |multiset(ys)|;
    if along != [] {
      match v
      case Table(t) =>
        if along[0] in t {
          HitsBelowPermuted(xs, ys, Step.Key(along[0]));
          HoldsTwoPermuted(t[along[0]], Below(xs, Step.Key(along[0])), Below(ys, Step.Key(along[0])), along[1..]);
        }
      case Array(a) =>
        if Index(a, along[0]).Some? {
          var i := Index(a, along[0]).value;
          HitsBelowPermuted(xs, ys, Step.At(i));
          HoldsTwoPermuted(a[i], Below(xs, Step.At(i)), Below(ys, Step.At(i)), along[1..]);
        }
      case _ =>
    }
  }

  /** Any sort will do where the comparison is an order on all fields, or where no list holds
      two of the locations. */
  lemma LocatedInOrder(v: Value, flagged: seq<Path>, sorted: seq<string>)
    requires multiset(sorted) == multiset(Rendered(flagged))
    requires FieldsDescend(sorted) || OnePerArray(v, Prunables(flagged))
    ensures InOrder(v, Located(sorted))
  {
    if FieldsDescend(sorted) {
      forall f | f in sorted ensures IsRendered(f) {
        assert f in multiset(Rendered(flagged));
        var i :| 0 <= i < |flagged| && Rendered(flagged)[i] == f;
      }
      LocatedDescend(sorted);
      DescendingInOrder(v, Located(sorted));
    } else {
      LocatedRendered(flagged);
      LocatedPermuted(sorted, Rendered(flagged));
      OnePerArrayPermuted(v, Located(sorted), Prunables(flagged));
      OneInOrder(v, Located(sorted));
    }
  }

  lemma {:induction false} OnePerArrayPermuted(v: Value, xs: seq<Path>, ys: seq<Path>)
    requires multiset(xs) == multiset(ys) && OnePerArray(v, ys)
    ensures OnePerArray(v, xs)
  {
    match v
    case Table(t) =>
      forall k | k in t ensures OnePerArray(t[k], Below(xs, Step.Key(k))) {
        HitsBelowPermuted(xs, ys, Step.Key(k));
        OnePerArrayPermuted(t[k], Below(xs, Step.Key(k)), Below(ys, Step.Key(k)));
      }
    case Array(_) => assert |multiset(xs)| == |multiset(ys)|;
    case _ =>
  }

  /** Whatever the sort does, as long as it permutes the fields and gets the lists right. */
  lemma SortedOutcome(v: Value, flagged: seq<Path>, sorted: seq<string>)
    requires multiset(sorted) == multiset(Rendered(flagged)) && InOrder(v, Located(sorted))
    ensures RemoveEach(v, Located(sorted)) == RemoveAll(v, Prunables(flagged))
            <==> Safe(v, Prunables(flagged))
  {
    LocatedPermuted(sorted, Rendered(flagged));
    LocatedRendered(flagged);
    var xs, ys := Located(sorted), Prunables(flagged);
    forall p ensures p in xs <==> p in ys {
      assert p in xs <==> p in multiset(xs);
    }
    LoopExactly(v, xs);
    RemoveAllUnordered(v, xs, ys);
    SafePermuted(v, xs, ys);
  }

  // ----- the pipeline -----

  function Present(files: seq<Option<Value>>): seq<Value> {
    if files == [] then []
    else
      var front, last := Present(files[..|files| - 1]), files[|files| - 1];
      if last.Some? then front + [last.value] else front
  }

  /** All files that could be read, in order, and nothing else. */
  lemma {:induction false} PresentExactly(before: seq<Option<Value>>, after: seq<Option<Value>>, v: Value)
    ensures Present([]) == []
    ensures Present(before + [None] + after) == Present(before) + Present(after)
    ensures Present(before + [Some(v)] + after) == Present(before) + [v] + Present(after)
    decreases |after|
  {
    var none, some := before + [None] + after, before + [Some(v)] + after;
    if after == [] {
      assert none[..|none| - 1] == before && some[..|some| - 1] == before;
    } else {
      var front, last := after[..|after| - 1], after[|after| - 1];
      assert none[..|none| - 1] == before + [None] + front && some[..|some| - 1] == before + [Some(v)] + front;
      assert none[|none| - 1] == last && some[|some| - 1] == last;
      PresentExactly(before, front, v);
    }
  }

  /** Defaults, plugins in order, the files that could be read, then the runtime tree. */
  function Effective(defaults: Value, plugins: seq<Value>, files: seq<Option<Value>>,
                     env: map<string, string>, overrides: seq<Value>): Value
  {
    Merged(Folded([defaults] + plugins + Present(files)), RuntimeTree(env, overrides))
  }

  /** The effective tree is the fold of every single layer, from the defaults to the last
      override, exactly when no value of the environment or of an override cuts off a table or
      array of the files that a later override brings back. */
  lemma EffectiveIsFoldExactly(defaults: Value, plugins: seq<Value>, files: seq<Option<Value>>,
                               env: map<string, string>, overrides: seq<Value>)
    requires forall u :: u in overrides ==> u.Table?
    ensures var low := [defaults] + plugins + Present(files);
            Effective(defaults, plugins, files, env, overrides) ==
              Folded(low + ([EnvValue(env)] + overrides))
            <==> PrefoldSafe(Folded(low), [EnvValue(env)] + overrides)
  {
    var low := [defaults] + plugins + Present(files);
    RuntimePrefoldExactly(Folded(low), env, overrides);
    FoldedFrom(low, [EnvValue(env)] + overrides);
  }

  /** Every layer, each override as a table of its own, lowest first. */
  function AllLayers(defaults: Value, plugins: seq<Value>, files: seq<Option<Value>>,
                     env: map<string, string>, overrides: seq<string>, parse: string -> Value): seq<Value>
    requires AllAccepted(overrides)
  {
    [defaults] + plugins + Present(files) + ([EnvValue(env)] + Nestings(overrides, parse))
  }

  /** The whole pipeline. The effective tree is the fold of all layers exactly when nothing of
      the files is cut off and brought back. The validator sees its JSON form; if it reports
      only what exists there, everything it flags is in the tree. Where the flagged fields can
      be sorted, the tree loses exactly the flagged locations, if and only if no index flagged
      twice has an unflagged later sibling. A panic of the library sort is not modelled. */
  method Resolve(defaults: Value, plugins: Result<seq<Value>>, files: seq<Option<Value>>,
                 env: map<string, string>, overrides: seq<string>,
                 parse: string -> Value, validate: Json -> seq<Path>) returns (r: Result<Value>)
    ensures r.Ok? <==> plugins.Ok? && AllAccepted(overrides)
    ensures r.Ok? ==>
      var upper := [EnvValue(env)] + Nestings(overrides, parse);
      var merged := Effective(defaults, plugins.value, files, env, Nestings(overrides, parse));
      var flagged := validate(ToJson(merged));
      && (merged == Folded(AllLayers(defaults, plugins.value, files, env, overrides, parse)) <==>
            PrefoldSafe(Folded([defaults] + plugins.value + Present(files)), upper))
      && (ReportsExisting(validate) ==> forall p :: p in flagged ==> Lookup(merged, p).Some?)
      && (Sortable(merged, flagged) ==>
            (r.value == RemoveAll(merged, Prunables(flagged)) <==> Safe(merged, Prunables(flagged))))
  {
    if plugins.Err? {
      return Err(plugins.message);
    }
    var value := defaults;
    for i := 0 to |plugins.value|
      invariant value == Folded([defaults] + plugins.value[..i])
    {
      FoldedSnoc([defaults] + plugins.value[..i], plugins.value[i]);
      assert [defaults] + plugins.value[..i] + [plugins.value[i]] == [defaults] + plugins.value[..i + 1];
      value := MergeTomlValues(value, plugins.value[i]);
    }
    assert plugins.value[..|plugins.value|] == plugins.value;
    ghost var low := [defaults] + plugins.value;
    assert low + Present([]) == low;
    for i := 0 to |files|
      invariant value == Folded(low + Present(files[..i]))
    {
      assert files[..i + 1][..i] == files[..i];
      if files[i].Some? {
        FoldedSnoc(low + Present(files[..i]), files[i].value);
        assert low + Present(files[..i]) + [files[i].value] == low + Present(files[..i + 1]);
        value := MergeTomlValues(value, files[i].value);
      }
    }
    assert files[..|files|] == files;

    var runtime := EMPTY_TABLE;
    var e := EnvToValue(env);
    runtime := MergeTomlValues(runtime, e);
    var cli := CliOverridesToValue(overrides, parse);
    if cli.Err? {
      return Err(cli.message);
    }
    runtime := MergeTomlValues(runtime, cli.value);
    value := MergeTomlValues(value, runtime);

    NestingsAreTables(overrides, parse);
    EffectiveIsFoldExactly(defaults, plugins.value, files, env, Nestings(overrides, parse));
    if ReportsExisting(validate) {
      FlaggedExist(validate, value);
    }
    var result := PruneFlagged(value, validate(ToJson(value)));
    r := Ok(result);
  }

  // ----- where the prune goes wrong -----

  /** A table with one entry, when no location is that entry itself. */
  lemma UnderKey(k: string, v: Value, paths: seq<Path>)
    requires Hits(paths, Step.Key(k)) == 0
    ensures RemoveEach(Table(map[k := v]), paths) == Table(map[k := RemoveEach(v, Below(paths, Step.Key(k)))])
    ensures RemoveAll(Table(map[k := v]), paths) == Table(map[k := RemoveAll(v, Below(paths, Step.Key(k)))])
  {
    var t, below := map[k := v], Below(paths, Step.Key(k));
    RemoveEachTable(t, paths);
    assert TableLeft(t, paths) == map[k := RemoveEach(v, below)];
    assert RemoveAll(Table(t), paths).entries == map[k := RemoveAll(v, below)];
  }

  /** Two locations that are elements of one array. */
  lemma TwoElements(p: Path, q: Path, paths: seq<Path>, i: nat, j: nat, k: nat)
    requires paths == [p] + [q] && |p| == 1 && |q| == 1 && FirstIs(p, i) && FirstIs(q, j)
    ensures Hits(paths, Step.At(k)) == (if i == k then 1 else 0) + (if j == k then 1 else 0)
    ensures Below(paths, Step.At(k)) == []
  {
    assert paths[1..] == [q] && [q][1..] == [];
    assert Hits([q], Step.At(k)) == (if j == k then 1 else 0) && Below([q], Step.At(k)) == [];
  }

  lemma RemoveTwo(v: Value, p: Path, q: Path, paths: seq<Path>)
    requires paths == [p] + [q]
    ensures RemoveEach(v, paths) == RemoveAt(RemoveAt(v, p), q)
  {
    assert paths[1..] == [q] && [q][1..] == [];
    assert RemoveEach(RemoveAt(v, p), [q]) == RemoveAt(RemoveAt(v, p), q);
  }

  lemma PairTwice(x: Value, y: Value, p: Path, twice: seq<Path>)
    requires twice == [p] + [p] && |p| == 1 && FirstIs(p, 0)
    ensures RemoveEach(Array([x, y]), twice) == Array([])
    ensures RemoveAll(Array([x, y]), twice) == Array([y])
  {
    var v := Array([x, y]);
    RemoveTwo(v, p, p, twice);
    assert RemoveAt(v, p) == Array([y]) && RemoveAt(Array([y]), p) == Array([]);
    TwoElements(p, p, twice, 0, 0, 0);
    TwoElements(p, p, twice, 0, 0, 1);
    RemoveAllNothing(y);
    assert Kept(v, 2, twice) == [] && Kept(v, 1, twice) == [y];
  }

  /** The same location twice, below a key. */
  lemma TwiceBelow(path: Path, k: string)
    requires |path| > 1 && path[0] == k
    ensures Hits([path, path], Step.Key(k)) == 0
    ensures Below([path, path], Step.Key(k)) == [path[1..], path[1..]]
  {
    assert [path, path][1..] == [path] && [path][1..] == [];
    assert Hits([path], Step.Key(k)) == 0 && Below([path], Step.Key(k)) == [path[1..]];
  }

  /** The same location twice, below two keys. */
  lemma TwiceUnderKeys(a: string, b: string, segment: string, v: Value, p: Path)
    requires p == [a, b, segment]
    ensures var last: Path := [segment];
            && RemoveEach(Table(map[a := Table(map[b := v])]), [p, p]) ==
                 Table(map[a := Table(map[b := RemoveEach(v, [last, last])])])
            && RemoveAll(Table(map[a := Table(map[b := v])]), [p, p]) ==
                 Table(map[a := Table(map[b := RemoveAll(v, [last, last])])])
  {
    var q, inner := p[1..], Table(map[b := v]);
    assert q == [b, segment] && q[1..] == [segment];
    TwiceBelow(p, a);
    UnderKey(a, inner, [p, p]);
    TwiceBelow(q, b);
    UnderKey(b, v, [q, q]);
  }

  /** A configuration with one list, such as `permissions.allow`, and nothing else. */
  function Listing(section: string, name: string, items: seq<Value>): Value {
    Table(map[section := Table(map[name := Array(items)])])
  }

  /** When a validator reports the first index of a list twice, both elements of a pair go,
      although the second was not flagged. */
  lemma DuplicateIndexLosesSibling(section: string, name: string, first: string, x: Value, y: Value,
                                   p: Path, sorted: seq<string>)
    requires p == [section, name, first] && FirstIs([first], 0)
    requires multiset(sorted) == multiset(Rendered([p, p]))
    ensures RemoveEach(Listing(section, name, [x, y]), Located(sorted)) == Listing(section, name, [])
    ensures RemoveAll(Listing(section, name, [x, y]), Prunables([p, p])) == Listing(section, name, [y])
  {
    assert Located(sorted) == [p, p] by { SortedTwice(p, sorted); }
    assert Prunables([p, p]) == [p, p] by { AllPrunable([p, p]); }
    TwiceUnderKeys(section, name, first, Array([x, y]), p);
    PairTwice(x, y, [first], [[first], [first]]);
  }

  lemma SortedTwice(p: Path, sorted: seq<string>)
    requires Prunable(p) && multiset(sorted) == multiset(Rendered([p, p]))
    ensures Located(sorted) == [p, p]
  {
    var f := Pointer(p);
    assert Rendered([p, p]) == [f, f];
    assert |sorted| == |multiset(sorted)| == 2;
    assert sorted[0] in multiset(sorted) && sorted[1] in multiset(sorted);
    assert sorted == Rendered([p, p]);
    LocatedRendered([p, p]);
    AllPrunable([p, p]);
  }

  lemma SecondDecides(p: Path, q: Path)
    requires |p| > 1 && |q| > 1 && p[0] == q[0]
    requires Escape(p[1]) == p[1] && Escape(q[1]) == q[1] && CompareSegments(p[1], q[1]) == Greater
    ensures CompareFields(Pointer(p), Pointer(q)) == Greater
  {
    CompareRendered(p, q);
    CompareSegmentsReversed(Escape(p[0]), Escape(q[0]));
    assert EscapeAll(p)[1..][0] == p[1] && EscapeAll(q)[1..][0] == q[1];
  }

  lemma FirstDigits()
    ensures FirstIs(["0"], 0) && FirstIs(["1"], 1)
  {
    assert DecimalValue("0"[..0]) == 0 && DecimalValue("1"[..0]) == 0;
    assert ParseUnsigned("0") == Some(0) && ParseUnsigned("1") == Some(1);
  }

  lemma ApartTwo(x: Value, y: Value, z: Value, p: Path, q: Path, rising: seq<Path>)
    requires rising == [p] + [q] && |p| == 1 && |q| == 1 && FirstIs(p, 0) && FirstIs(q, 1)
    ensures RemoveEach(Array([x, y, z]), rising) == Array([y])
    ensures RemoveAll(Array([x, y, z]), rising) == Array([z])
  {
    var v := Array([x, y, z]);
    RemoveTwo(v, p, q, rising);
    assert RemoveAt(v, p) == Array([y, z]) && RemoveAt(Array([y, z]), q) == Array([y]);
    TwoElements(p, q, rising, 0, 1, 0);
    TwoElements(p, q, rising, 0, 1, 1);
    TwoElements(p, q, rising, 0, 1, 2);
    RemoveAllNothing(z);
    assert Kept(v, 3, rising) == [] && Kept(v, 2, rising) == [z];
    assert Kept(v, 1, rising) == [z];
  }

  /** Two elements of a list next to two keys that close a cycle with its name. */
  function MixedSiblings(section: string): seq<Path> {
    [[section, "9", "0"], [section, "1a"], [section, "10"], [section, "9", "1"]]
  }

  lemma MixedBelow(section: string, paths: seq<Path>)
    requires paths == MixedSiblings(section)
    ensures Hits(paths, Step.Key(section)) == 0
    ensures Below(paths, Step.Key(section)) == [["9", "0"], ["1a"], ["10"], ["9", "1"]]
  {
    var r1, r2, r3 := paths[1..], paths[2..], paths[3..];
    assert r1[1..] == r2 && r2[1..] == r3 && r3[1..] == [];
    assert paths[0][1..] == ["9", "0"] && r1[0][1..] == ["1a"] && r2[0][1..] == ["10"] && r3[0][1..] == ["9", "1"];
    assert Hits(r3, Step.Key(section)) == 0 && Below(r3, Step.Key(section)) == [["9", "1"]];
    assert Hits(r2, Step.Key(section)) == 0 && Below(r2, Step.Key(section)) == [["10"], ["9", "1"]];
    assert Hits(r1, Step.Key(section)) == 0 && Below(r1, Step.Key(section)) == [["1a"], ["10"], ["9", "1"]];
  }

  lemma NineBelow(paths: seq<Path>, nine: string)
    requires nine == "9" && paths == [["9", "0"], ["1a"], ["10"], ["9", "1"]]
    ensures Hits(paths, Step.Key(nine)) == 0
    ensures Below(paths, Step.Key(nine)) == [["0"], ["1"]]
  {
    var r1, r2, r3 := paths[1..], paths[2..], paths[3..];
    assert r1[1..] == r2 && r2[1..] == r3 && r3[1..] == [];
    assert paths[0][1..] == ["0"] && r3[0][1..] == ["1"];
    assert "1a"[0] != nine[0] && "10"[0] != nine[0];
    assert Hits(r3, Step.Key(nine)) == 0 && Below(r3, Step.Key(nine)) == [["1"]];
    assert Hits(r2, Step.Key(nine)) == 0 && Below(r2, Step.Key(nine)) == [["1"]];
    assert Hits(r1, Step.Key(nine)) == 0 && Below(r1, Step.Key(nine)) == [["1"]];
  }

  /** A section with a list under the key 9, next to keys 10 and 1a. */
  predicate HasMixedKeys(inner: map<string, Value>, items: seq<Value>) {
    inner.Keys == {"9", "1a", "10"} && inner["9"] == Array(items)
  }

  /** Siblings that mix numbers and other keys can leave the elements of a list in rising order
      although no field stands before a greater neighbour, so that the sort leaves the list of
      fields as it is. The wrong element is then removed, although every flagged location exists
      and none is flagged twice. */
  lemma MixedSiblingsLoseSibling(section: string, inner: map<string, Value>, x: Value, y: Value, z: Value,
                                 flagged: seq<Path>)
    requires HasMixedKeys(inner, [x, y, z]) && flagged == MixedSiblings(section)
    ensures NeighboursDescend(Rendered(flagged))
    ensures forall p :: p in flagged ==> Lookup(Table(map[section := Table(inner)]), p).Some?
    ensures var v := Table(map[section := Table(inner)]);
            && RemoveEach(v, Located(Rendered(flagged))) == Listing(section, "9", [y])
            && RemoveAll(v, Prunables(flagged)) == Listing(section, "9", [z])
  {
    MixedNeighbours(section, flagged);
    LocatedRendered(flagged);
    AllPrunable(flagged);
    MixedBelow(section, flagged);
    MixedExist(section, inner, [x, y, z], flagged);
    UnderKey(section, Table(inner), flagged);
    MixedKeysPruned(inner, x, y, z, Below(flagged, Step.Key(section)));
  }

  lemma MixedExist(section: string, inner: map<string, Value>, items: seq<Value>, flagged: seq<Path>)
    requires HasMixedKeys(inner, items) && |items| == 3 && flagged == MixedSiblings(section)
    ensures forall p :: p in flagged ==> Lookup(Table(map[section := Table(inner)]), p).Some?
  {
    FirstDigits();
    var v := Table(map[section := Table(inner)]);
    EntryExists(section, inner, flagged[1]);
    EntryExists(section, inner, flagged[2]);
    ElementExists(section, inner, flagged[0]);
    ElementExists(section, inner, flagged[3]);
    assert forall i :: 0 <= i < 4 ==> Lookup(v, flagged[i]).Some?;
  }

  lemma EntryExists(section: string, inner: map<string, Value>, p: Path)
    requires |p| == 2 && p[0] == section && p[1] in inner
    ensures Lookup(Table(map[section := Table(inner)]), p) == Some(inner[p[1]])
  {
    assert p[1..][0] == p[1] && p[1..][1..] == [];
    assert Lookup(Table(inner), p[1..]) == Some(inner[p[1]]);
  }

  lemma ElementExists(section: string, inner: map<string, Value>, p: Path)
    requires |p| == 3 && p[0] == section && p[1] in inner && inner[p[1]].Array?
    requires Index(inner[p[1]].items, p[2]).Some?
    ensures Lookup(Table(map[section := Table(inner)]), p).Some?
  {
    var q := p[1..];
    assert q[0] == p[1] && q[1..] == [p[2]] && q[1..][1..] == [];
    assert Lookup(inner[p[1]], q[1..]).Some?;
    assert Lookup(Table(inner), q).Some?;
  }

  /** A table with three entries of which two are removed and the third changed below. */
  lemma TwoOfThree(inner: map<string, Value>, kept: string, gone: string, gone': string, paths: seq<Path>)
    requires inner.Keys == {kept, gone, gone'} && kept != gone && kept != gone'
    requires Hits(paths, Step.Key(kept)) == 0 && Hits(paths, Step.Key(gone)) > 0 && Hits(paths, Step.Key(gone')) > 0
    ensures var below := Below(paths, Step.Key(kept));
            && RemoveEach(Table(inner), paths) == Table(map[kept := RemoveEach(inner[kept], below)])
            && RemoveAll(Table(inner), paths) == Table(map[kept := RemoveAll(inner[kept], below)])
  {
    var below := Below(paths, Step.Key(kept));
    assert RemoveEach(Table(inner), paths) == Table(TableLeft(inner, paths)) by { RemoveEachTable(inner, paths); }
    var each, all := TableLeft(inner, paths), RemoveAll(Table(inner), paths).entries;
    OnlyKey(inner, kept, gone, gone', paths, each);
    OnlyKey(inner, kept, gone, gone', paths, all);
    assert each[kept] == RemoveEach(inner[kept], below) && all[kept] == RemoveAll(inner[kept], below);
  }

  lemma OnlyKey(inner: map<string, Value>, kept: string, gone: string, gone': string, paths: seq<Path>,
                left: map<string, Value>)
    requires inner.Keys == {kept, gone, gone'}
    requires Hits(paths, Step.Key(kept)) == 0 && Hits(paths, Step.Key(gone)) > 0 && Hits(paths, Step.Key(gone')) > 0
    requires forall k :: k in left <==> k in inner && Hits(paths, Step.Key(k)) == 0
    ensures kept in left && left == map[kept := left[kept]]
  {
    forall k ensures k in left <==> k == kept {
      assert k in inner <==> k == kept || k == gone || k == gone';
    }
  }

  lemma HitAt(paths: seq<Path>, i: nat, key: string)
    requires i < |paths| && paths[i] == [key]
    ensures Hits(paths, Step.Key(key)) > 0
  {
    assert paths[i] in paths;
    HitsMember(paths, Step.Key(key));
  }

  lemma MixedKeysPruned(inner: map<string, Value>, x: Value, y: Value, z: Value, paths: seq<Path>)
    requires HasMixedKeys(inner, [x, y, z]) && paths == [["9", "0"], ["1a"], ["10"], ["9", "1"]]
    ensures RemoveEach(Table(inner), paths) == Table(map["9" := Array([y])])
    ensures RemoveAll(Table(inner), paths) == Table(map["9" := Array([z])])
  {
    FirstDigits();
    NineBelow(paths, "9");
    HitAt(paths, 1, "1a");
    HitAt(paths, 2, "10");
    assert "9"[0] != "1a"[0] && "9"[0] != "10"[0];
    TwoOfThree(inner, "9", "1a", "10", paths);
    ApartTwo(x, y, z, ["0"], ["1"], [["0"], ["1"]]);
  }

  lemma MixedNeighbours(section: string, flagged: seq<Path>)
    requires flagged == MixedSiblings(section)
    ensures NeighboursDescend(Rendered(flagged))
  {
    assert CompareFields(Pointer(flagged[0]), Pointer(flagged[1])) == Greater by {
      CycleReversed();
      SecondDecides(flagged[0], flagged[1]);
    }
    assert CompareFields(Pointer(flagged[1]), Pointer(flagged[2])) == Greater by {
      CycleReversed();
      SecondDecides(flagged[1], flagged[2]);
    }
    assert CompareFields(Pointer(flagged[2]), Pointer(flagged[3])) == Greater by {
      CycleReversed();
      SecondDecides(flagged[2], flagged[3]);
    }
  }

  lemma CycleReversed()
    ensures CompareSegments("9", "1a") == CompareSegments("1a", "10") == CompareSegments("10", "9") == Greater
    ensures Escape("9") == "9" && Escape("10") == "10" && Escape("1a") == "1a"
  {
    MixedSiblingsCycle();
    CompareSegmentsReversed("1a", "9");
    CompareSegmentsReversed("10", "1a");
    CompareSegmentsReversed("9", "10");
    EscapeUnchanged("9");
    EscapeUnchanged("10");
    EscapeUnchanged("1a");
  }

  lemma {:induction false} RemoveAllNothing(v: Value)
    ensures RemoveAll(v, []) == v
  {
    OneInOrder(v, []);
    assert Safe(v, []) by { DistinctIsSafe(v, []); }
    LoopExactly(v, []);
  }
}
