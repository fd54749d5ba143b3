/** Where the order of pruning matters: at the lists that hold two of the flagged locations
    (crates/config/src/loader.rs). Only the segments on the way to such a list and those of
    its own elements decide whether the sort gets that list right. */
module ListOrder {
  import opened Values
  import opened Text
  import opened Pointers
  import opened Prune

  // ----- comparing along one way down -----

  /** Two paths compared only as far as they lead along a given one, and one segment more;
      beyond that a path comes after its proper prefixes and everything else is equal. */
  function CompareAlong(along: seq<string>, p: seq<string>, q: seq<string>): Ordering {
    if p == [] || q == [] then CompareEnds(p, q)
    else
      var o := CompareSegments(p[0], q[0]);
      if o != Equal then o
      else if along != [] && SameSegment(p[0], along[0]) then CompareAlong(along[1..], p[1..], q[1..])
      else CompareEnds(p[1..], q[1..])
  }

  function CompareEnds(p: seq<string>, q: seq<string>): Ordering {
    if p == [] then (if q == [] then Equal else Less) else if q == [] then Greater else Equal
  }

  /** No straddling on the way down. */
  predicate CoherentAlong(along: seq<string>, p: seq<string>, q: seq<string>, r: seq<string>) {
    p != [] && q != [] && r != [] ==>
      && NoStraddleAmong(p[0], q[0], r[0])
      && (CompareSegments(p[0], q[0]) == Equal && CompareSegments(q[0], r[0]) == Equal &&
          along != [] && SameSegment(p[0], along[0]) ==>
            CoherentAlong(along[1..], p[1..], q[1..], r[1..]))
  }

  lemma EqualIsSame(x: string, y: string)
    ensures CompareSegments(x, y) == Equal <==> SameSegment(x, y)
  {
    CompareTextEqual(x, y);
  }

  /** It never contradicts the whole comparison. */
  lemma {:induction false} AlongIsCoarser(along: seq<string>, p: seq<string>, q: seq<string>)
    ensures CompareAlong(along, p, q) == ComparePaths(p, q) || CompareAlong(along, p, q) == Equal
  {
    if p != [] && q != [] && along != [] {
      AlongIsCoarser(along[1..], p[1..], q[1..]);
    }
  }

  lemma {:induction false} AlongReversed(along: seq<string>, p: seq<string>, q: seq<string>)
    ensures CompareAlong(along, q, p) == Reversed(CompareAlong(along, p, q))
  {
    if p != [] && q != [] {
      CompareSegmentsReversed(p[0], q[0]);
      EqualIsSame(p[0], q[0]);
      if along != [] {
        AlongReversed(along[1..], p[1..], q[1..]);
      }
    }
  }

  /** Transitive as soon as nothing straddles on the way down, whatever straddles elsewhere. */
  lemma {:induction false} AlongTransitive(along: seq<string>, p: seq<string>, q: seq<string>, r: seq<string>)
    requires CoherentAlong(along, p, q, r)
    requires CompareAlong(along, p, q) != Less && CompareAlong(along, q, r) != Less
    ensures CompareAlong(along, p, r) != Less
  {
    if p != [] && q != [] && r != [] {
      SegmentsDescend(p[0], q[0], r[0]);
      if CompareSegments(p[0], r[0]) == Equal && along != [] && SameSegment(p[0], along[0]) {
        EqualIsSame(p[0], q[0]);
        AlongTransitive(along[1..], p[1..], q[1..], r[1..]);
      }
    }
  }

  lemma SegmentsDescend(x: string, y: string, z: string)
    requires NoStraddleAmong(x, y, z)
    requires CompareSegments(x, y) != Less && CompareSegments(y, z) != Less
    ensures CompareSegments(x, z) != Less
    ensures CompareSegments(x, z) == Equal ==>
              CompareSegments(x, y) == Equal && CompareSegments(y, z) == Equal
  {
    CompareSegmentsReversed(x, y);
    CompareSegmentsReversed(y, z);
    CompareSegmentsReversed(x, z);
    SegmentTransitive(z, y, x);
    if CompareSegments(x, z) == Equal {
      SegmentTransitive(x, z, y);
      SegmentTransitive(y, x, z);
    }
  }

  // ----- the lists that matter -----

  /** At `along` the tree has a list, and two of the locations lead into it. */
  predicate HoldsTwo(v: Value, paths: seq<Path>, along: Path)
    decreases |along|
  {
    match v
    case Table(t) =>
      along != [] && along[0] in t && HoldsTwo(t[along[0]], Below(paths, Key(along[0])), along[1..])
    case Array(a) =>
      if along == [] then |paths| > 1
      else
        (match Index(a, along[0])
         case Some(i) => HoldsTwo(a[i], Below(paths, At(i)), along[1..])
         case None => false)
    case _ => false
  }

  ghost predicate DescendsAlong(along: Path, paths: seq<Path>) {
    forall i, j :: 0 <= i < j < |paths| ==>
      CompareAlong(EscapeAll(along), EscapeAll(paths[i]), EscapeAll(paths[j])) != Less
  }

  lemma AlongIndices(paths: seq<Path>)
    requires DescendsAlong([], paths)
    ensures IndicesDescend(paths)
  {
    forall i, j, x, y | 0 <= i < j < |paths| && FirstIs(paths[i], x) && FirstIs(paths[j], y)
      ensures x > y || (x == y && (|paths[i]| > 1 || |paths[j]| == 1))
    {
      assert EscapeAll([]) == [];
      assert CompareAlong([], EscapeAll(paths[i]), EscapeAll(paths[j])) != Less;
      IndicesAlong(paths[i], paths[j], x, y);
    }
  }

  lemma IndicesAlong(p: Path, q: Path, x: nat, y: nat)
    requires FirstIs(p, x) && FirstIs(q, y)
    requires CompareAlong([], EscapeAll(p), EscapeAll(q)) != Less
    ensures x > y || (x == y && (|p| > 1 || |q| == 1))
  {
    ParseEscaped(p[0]);
    ParseEscaped(q[0]);
    assert CompareSegments(EscapeAll(p)[0], EscapeAll(q)[0]) == CompareNat(x, y);
    EscapeAllRest(p);
    EscapeAllRest(q);
  }

  lemma StepBelow(along: Path, p: Path, q: Path, step: Step)
    requires along != [] && Names(along[0], step)
    requires |p| > 1 && |q| > 1 && Names(p[0], step) && Names(q[0], step)
    ensures CompareAlong(EscapeAll(along), EscapeAll(p), EscapeAll(q)) ==
            CompareAlong(EscapeAll(along[1..]), EscapeAll(p[1..]), EscapeAll(q[1..]))
  {
    ParseEscaped(p[0]);
    ParseEscaped(q[0]);
    ParseEscaped(along[0]);
    EqualIsSame(Escape(p[0]), Escape(q[0]));
    assert SameSegment(Escape(p[0]), Escape(along[0]));
    EscapeAllRest(p);
    EscapeAllRest(q);
    EscapeAllRest(along);
  }

  lemma {:induction false} AlongBelow(along: Path, paths: seq<Path>, step: Step)
    requires along != [] && Names(along[0], step) && DescendsAlong(along, paths)
    ensures DescendsAlong(along[1..], Below(paths, step))
  {
    if paths != [] {
      var p, rest := paths[0], paths[1..];
      assert DescendsAlong(along, rest) by {
        forall i, j | 0 <= i < j < |rest|
          ensures CompareAlong(EscapeAll(along), EscapeAll(rest[i]), EscapeAll(rest[j])) != Less
        {
          assert rest[i] == paths[i + 1] && rest[j] == paths[j + 1];
        }
      }
      AlongBelow(along, rest, step);
      if |p| > 1 && Names(p[0], step) {
        HeadBelow(along, paths, step);
        assert Below(paths, step) == [p[1..]] + Below(rest, step);
      }
    }
  }

  lemma HeadBelow(along: Path, paths: seq<Path>, step: Step)
    requires along != [] && Names(along[0], step) && DescendsAlong(along, paths)
    requires paths != [] && |paths[0]| > 1 && Names(paths[0][0], step)
    ensures forall b :: b in Below(paths[1..], step) ==>
              CompareAlong(EscapeAll(along[1..]), EscapeAll(paths[0][1..]), EscapeAll(b)) != Less
  {
    var p, rest := paths[0], paths[1..];
    forall b | b in Below(rest, step)
      ensures CompareAlong(EscapeAll(along[1..]), EscapeAll(p[1..]), EscapeAll(b)) != Less
    {
      BelowMember(rest, step, b);
      var q :| q in rest && |q| > 1 && Names(q[0], step) && q[1..] == b;
      var k :| 0 <= k < |rest| && rest[k] == q;
      assert paths[k + 1] == q;
      StepBelow(along, p, q, step);
    }
  }

  /** When the locations descend along the way to every list that holds two of them, the
      prune finds every list in order. */
  lemma {:induction false} ListsInOrder(v: Value, paths: seq<Path>)
    requires forall along :: HoldsTwo(v, paths, along) ==> DescendsAlong(along, paths)
    ensures InOrder(v, paths)
  {
    match v
    case Table(t) =>
      forall k | k in t ensures InOrder(t[k], Below(paths, Key(k))) {
        ChildInOrder(v, paths, k, Key(k), t[k]);
        ListsInOrder(t[k], Below(paths, Key(k)));
      }
    case Array(a) =>
      if |paths| > 1 {
        assert HoldsTwo(v, paths, []);
        AlongIndices(paths);
      }
      forall i | 0 <= i < |a| ensures InOrder(a[i], Below(paths, At(i))) {
        var below := Below(paths, At(i));
        if below == [] {
          OneInOrder(a[i], below);
        } else {
          BelowMember(paths, At(i), below[0]);
          var p :| p in paths && |p| > 1 && Names(p[0], At(i)) && p[1..] == below[0];
          ChildInOrder(v, paths, p[0], At(i), a[i]);
          ListsInOrder(a[i], below);
        }
      }
    case _ =>
  }

  lemma ChildInOrder(v: Value, paths: seq<Path>, segment: string, step: Step, child: Value)
    requires forall along :: HoldsTwo(v, paths, along) ==> DescendsAlong(along, paths)
    requires match step
             case Key(k) => v.Table? && k in v.entries && segment == k && child == v.entries[k]
             case At(i) => v.Array? && i < |v.items| && Names(segment, step) && child == v.items[i]
    ensures forall along :: HoldsTwo(child, Below(paths, step), along) ==>
              DescendsAlong(along, Below(paths, step))
  {
    forall along | HoldsTwo(child, Below(paths, step), along)
      ensures DescendsAlong(along, Below(paths, step))
    {
      var longer := [segment] + along;
      assert longer[1..] == along;
      assert HoldsTwo(v, paths, longer);
      AlongBelow(longer, paths, step);
    }
  }
}
