/** Deep merge of configuration layers (crates/config/src/merge.rs). */
module Merge {
  import opened Values

  // ----- the deduplication key -----

  const DATETIME_KEY := "$__toml_private_datetime"

  /** The JSON document an element serialises to. Two elements are duplicates when these
      agree; non-finite floats all serialise to null. */
  function Key(v: Value): Json {
    match v
    case String(s) => Str(s)
    case Integer(i) => Num(Int(i))
    case Float(Finite(neg, mag)) => Num(Decimal(neg, mag))
    case Float(_) => Null
    case Boolean(b) => Bool(b)
    case Datetime(d) => Obj(map[DATETIME_KEY := Str(d)])
    case Array(items) => Arr(seq(|items|, i requires 0 <= i < |items| => Key(items[i])))
    case Table(entries) => Obj(map k | k in entries :: Key(entries[k]))
  }

  function Keys(xs: seq<Value>): set<Json> {
    set x | x in xs :: Key(x)
  }

  /** `xs` with every element dropped whose key occurs earlier. */
  function Dedup(xs: seq<Value>): seq<Value> {
    if xs == [] then []
    else
      var front, last := xs[..|xs| - 1], xs[|xs| - 1];
      if Key(last) in Keys(front) then Dedup(front) else Dedup(front) + [last]
  }

  /** `overlay` merged into `base`: tables recurse, arrays concatenate and deduplicate,
      every other pair is replaced. */
  function Merged(base: Value, overlay: Value): Value
    decreases overlay
  {
    match (base, overlay)
    case (Table(b), Table(o)) =>
      Table(map k | k in b.Keys + o.Keys ::
        if k !in o then b[k] else if k !in b then o[k] else Merged(b[k], o[k]))
    case (Array(b), Array(o)) => Array(Dedup(b + o))
    case _ => overlay
  }

  /** A duplicate-free list, in the sense of the key. */
  ghost predicate Distinct(xs: seq<Value>) {
    forall i, j :: 0 <= i < j < |xs| ==> Key(xs[i]) != Key(xs[j])
  }

  // ----- deduplication: laws -----

  lemma KeysConcat(xs: seq<Value>, ys: seq<Value>)
    ensures Keys(xs + ys) == Keys(xs) + Keys(ys)
  {
    assert forall x :: x in xs + ys <==> x in xs || x in ys;
  }

  lemma {:induction false} DedupKeys(xs: seq<Value>)
    ensures Keys(Dedup(xs)) == Keys(xs)
    ensures Distinct(Dedup(xs))
  {
    if xs != [] {
      var front, last := xs[..|xs| - 1], xs[|xs| - 1];
      DedupKeys(front);
      assert xs == front + [last];
      KeysConcat(front, [last]);
      KeysConcat(Dedup(front), [last]);
      assert Keys([last]) == {Key(last)};
      forall i | 0 <= i < |Dedup(front)| ensures Key(Dedup(front)[i]) in Keys(front) {
        assert Dedup(front)[i] in Dedup(front);
      }
    }
  }

  lemma DedupLast(front: seq<Value>, last: Value)
    ensures Dedup(front + [last]) ==
            if Key(last) in Keys(front) then Dedup(front) else Dedup(front) + [last]
  {
    assert (front + [last])[..|front|] == front;
  }

  /** One more element at the end. */
  lemma DedupSnoc(xs: seq<Value>, ys: seq<Value>, y: Value)
    ensures Dedup(xs + (ys + [y])) ==
            if Key(y) in Keys(xs) + Keys(ys) then Dedup(xs + ys) else Dedup(xs + ys) + [y]
  {
    assert xs + (ys + [y]) == (xs + ys) + [y];
    DedupLast(xs + ys, y);
    KeysConcat(xs, ys);
  }

  /** Deduplicating the first part beforehand changes nothing. */
  lemma {:induction false} DedupLeft(xs: seq<Value>, ys: seq<Value>)
    ensures Dedup(Dedup(xs) + ys) == Dedup(xs + ys)
    decreases |ys|
  {
    DedupKeys(xs);
    if ys == [] {
      assert xs + ys == xs && Dedup(xs) + ys == Dedup(xs);
      DistinctUnchanged(Dedup(xs));
    } else {
      var front, last := ys[..|ys| - 1], ys[|ys| - 1];
      assert ys == front + [last];
      DedupLeft(xs, front);
      DedupSnoc(xs, front, last);
      DedupSnoc(Dedup(xs), front, last);
    }
  }

  /** Deduplicating the second part beforehand changes nothing. */
  lemma {:induction false} DedupRight(xs: seq<Value>, ys: seq<Value>)
    ensures Dedup(xs + Dedup(ys)) == Dedup(xs + ys)
    decreases |ys|
  {
    if ys != [] {
      var front, last := ys[..|ys| - 1], ys[|ys| - 1];
      assert ys == front + [last];
      DedupRight(xs, front);
      DedupKeys(front);
      DedupSnoc(xs, front, last);
      DedupSnoc(xs, Dedup(front), last);
    }
  }

  lemma {:induction false} DistinctUnchanged(xs: seq<Value>)
    requires Distinct(xs)
    ensures Dedup(xs) == xs
  {
    if xs != [] {
      var front, last := xs[..|xs| - 1], xs[|xs| - 1];
      DistinctUnchanged(front);
      assert xs == front + [last];
      assert Key(last) !in Keys(front);
    }
  }

  /** The result starts with the deduplicated first part. */
  lemma {:induction false} DedupPrefix(xs: seq<Value>, ys: seq<Value>)
    ensures Dedup(xs) <= Dedup(xs + ys)
    decreases |ys|
  {
    if ys == [] {
      assert xs + ys == xs;
    } else {
      assert (xs + ys)[..|xs + ys| - 1] == xs + ys[..|ys| - 1];
      DedupPrefix(xs, ys[..|ys| - 1]);
    }
  }

  lemma {:induction false} DedupAbsorbs(xs: seq<Value>, ys: seq<Value>)
    requires Keys(ys) <= Keys(xs)
    ensures Dedup(xs + ys) == Dedup(xs)
    decreases |ys|
  {
    if ys == [] {
      assert xs + ys == xs;
    } else {
      var front, last := ys[..|ys| - 1], ys[|ys| - 1];
      assert ys == front + [last];
      KeysConcat(front, [last]);
      assert Key(last) in Keys([last]);
      DedupAbsorbs(xs, front);
      DedupSnoc(xs, front, last);
    }
  }

  // ----- deduplication, on the elements themselves -----

  /** No non-finite float, and no table that imitates the serialised form of a datetime. */
  predicate Plain(v: Value) {
    match v
    case Float(f) => f.Finite?
    case Array(items) => forall i :: 0 <= i < |items| ==> Plain(items[i])
    case Table(entries) =>
      && !(entries.Keys == {DATETIME_KEY} && entries[DATETIME_KEY].String?)
      && forall k :: k in entries ==> Plain(entries[k])
    case _ => true
  }

  function ItemKeys(items: seq<Value>): (r: seq<Json>)
    ensures |r| == |items| && forall i :: 0 <= i < |r| ==> r[i] == Key(items[i])
  {
    seq(|items|, i requires 0 <= i < |items| => Key(items[i]))
  }

  /** Such elements serialise alike only if they are the same. */
  lemma {:induction false} KeyExactly(a: Value, b: Value)
    requires Plain(a) && Plain(b)
    ensures Key(a) == Key(b) <==> a == b
    decreases a
  {
    match (a, b)
    case (Array(xs), Array(ys)) => ArrayKeys(xs, ys);
      if Key(a) == Key(b) {
        forall i | 0 <= i < |xs| ensures xs[i] == ys[i] {
          KeyExactly(xs[i], ys[i]);
        }
      }
    case (Table(x), Table(y)) =>
      if Key(a) == Key(b) {
        TableKeys(x, y);
        forall k | k in x ensures x[k] == y[k] {
          KeyExactly(x[k], y[k]);
        }
        assert x == y;
      }
    case (Datetime(d), Datetime(e)) =>
      assert Key(a).fields[DATETIME_KEY] == Str(d) && Key(b).fields[DATETIME_KEY] == Str(e);
    case (Datetime(_), Table(y)) => DatetimeKey(a, y);
    case (Table(x), Datetime(_)) => DatetimeKey(b, x);
    case _ =>
  }

  lemma ArrayKeys(xs: seq<Value>, ys: seq<Value>)
    ensures Key(Array(xs)) == Key(Array(ys)) ==>
              |xs| == |ys| && forall i :: 0 <= i < |xs| ==> Key(xs[i]) == Key(ys[i])
  {
    assert Key(Array(xs)) == Arr(ItemKeys(xs)) && Key(Array(ys)) == Arr(ItemKeys(ys));
  }

  lemma TableKeys(x: map<string, Value>, y: map<string, Value>)
    requires Key(Table(x)) == Key(Table(y))
    ensures x.Keys == y.Keys && forall k :: k in x ==> Key(x[k]) == Key(y[k])
  {
    var fx, fy := Key(Table(x)).fields, Key(Table(y)).fields;
    assert x.Keys == fx.Keys && y.Keys == fy.Keys;
    forall k | k in x ensures Key(x[k]) == Key(y[k]) {
      assert fx[k] == fy[k];
    }
  }

  lemma DatetimeKey(d: Value, t: map<string, Value>)
    requires d.Datetime? && Plain(Table(t))
    ensures Key(d) != Key(Table(t))
  {
    var fields := Key(Table(t)).fields;
    assert t.Keys == fields.Keys;
    assert DATETIME_KEY in t ==> fields[DATETIME_KEY] == Key(t[DATETIME_KEY]);
    assert Key(d).fields.Keys == {DATETIME_KEY} && Key(d).fields[DATETIME_KEY] == Str(d.d);
  }

  /** The two exceptions: all non-finite floats are duplicates of each other and of nothing
      else, and a datetime is one of the table that imitates it. */
  lemma KeyCollisions(a: Value, b: Value)
    ensures a.Float? && !a.f.Finite? ==> (Key(a) == Key(b) <==> b.Float? && !b.f.Finite?)
    ensures a.Datetime? && b.Table? ==>
              (Key(a) == Key(b) <==> b == Table(map[DATETIME_KEY := String(a.d)]))
  {
    if a.Datetime? && b.Table? {
      var fields, t := Key(b).fields, b.entries;
      assert t.Keys == fields.Keys;
      assert DATETIME_KEY in t ==> fields[DATETIME_KEY] == Key(t[DATETIME_KEY]);
      assert Key(a).fields.Keys == {DATETIME_KEY} && Key(a).fields[DATETIME_KEY] == Str(a.d);
      if Key(a) == Key(b) {
        assert t.Keys == {DATETIME_KEY} && t[DATETIME_KEY] == String(a.d);
        assert t == map[DATETIME_KEY := String(a.d)];
      }
      if b == Table(map[DATETIME_KEY := String(a.d)]) {
        assert fields == map[DATETIME_KEY := Str(a.d)];
      }
    }
  }

  /** `d` holds, in order, exactly those elements of `all` that do not occur earlier in it. */
  ghost predicate FirstOccurrences(all: seq<Value>, d: seq<Value>) {
    exists at: seq<nat> :: PicksFirsts(all, d, at)
  }

  ghost predicate PicksFirsts(all: seq<Value>, d: seq<Value>, at: seq<nat>) {
    && |at| == |d|
    && (forall k :: 0 <= k < |at| ==> at[k] < |all| && d[k] == all[at[k]])
    && (forall j, k :: 0 <= j < k < |at| ==> at[j] < at[k])
    && (forall i: nat :: i in at <==> i < |all| && all[i] !in all[..i])
  }

  lemma KeyMember(xs: seq<Value>, x: Value)
    requires Plain(x) && forall y :: y in xs ==> Plain(y)
    ensures Key(x) in Keys(xs) <==> x in xs
  {
    if Key(x) in Keys(xs) {
      var y :| y in xs && Key(y) == Key(x);
      KeyExactly(x, y);
    }
  }

  lemma PicksSnoc(front: seq<Value>, last: Value, d: seq<Value>, at: seq<nat>)
    requires PicksFirsts(front, d, at)
    ensures last in front ==> PicksFirsts(front + [last], d, at)
    ensures last !in front ==> PicksFirsts(front + [last], d + [last], at + [|front|])
  {
    var all := front + [last];
    assert all[..|front|] == front;
    forall i: nat | i < |front| ensures all[..i] == front[..i] {
    }
    forall k | 0 <= k < |at| ensures at[k] < |front| {
      assert at[k] in at;
    }
  }

  lemma {:induction false} DedupPicks(xs: seq<Value>) returns (at: seq<nat>)
    requires forall x :: x in xs ==> Plain(x)
    ensures PicksFirsts(xs, Dedup(xs), at)
  {
    if xs == [] {
      at := [];
    } else {
      var front, last := xs[..|xs| - 1], xs[|xs| - 1];
      at := DedupPicks(front);
      assert xs == front + [last];
      KeyMember(front, last);
      PicksSnoc(front, last, Dedup(front), at);
      if last !in front {
        at := at + [|front|];
      }
    }
  }

  lemma PickedOnce(all: seq<Value>, d: seq<Value>, at: seq<nat>)
    requires PicksFirsts(all, d, at)
    ensures forall x :: x in d ==> x in all
    ensures forall j, k :: 0 <= j < k < |d| ==> d[j] != d[k]
  {
    forall j, k | 0 <= j < k < |d| ensures d[j] != d[k] {
      assert at[k] in at;
      assert all[..at[k]][at[j]] == d[j];
    }
  }

  lemma {:induction false} FirstIn(all: seq<Value>, i: nat) returns (j: nat)
    requires i < |all|
    ensures j <= i && all[j] == all[i] && all[j] !in all[..j]
  {
    if all[i] in all[..i] {
      var k :| 0 <= k < i && all[..i][k] == all[i];
      j := FirstIn(all, k);
    } else {
      j := i;
    }
  }

  lemma PickedAll(all: seq<Value>, d: seq<Value>, at: seq<nat>)
    requires PicksFirsts(all, d, at)
    ensures forall x :: x in d <==> x in all
  {
    PickedOnce(all, d, at);
    forall x | x in all ensures x in d {
      var i :| 0 <= i < |all| && all[i] == x;
      var j := FirstIn(all, i);
      assert j in at;
      var k :| 0 <= k < |at| && at[k] == j;
      assert d[k] == x;
    }
  }

  /** Two merged arrays hold every element of both, base first, each where it occurs first and
      only there: no rule is dropped, none is doubled. */
  lemma MergedArrayExactly(base: seq<Value>, overlay: seq<Value>)
    requires forall x :: x in base + overlay ==> Plain(x)
    ensures var m := Merged(Array(base), Array(overlay));
      && m.Array? && FirstOccurrences(base + overlay, m.items)
      && (forall x :: x in m.items <==> x in base || x in overlay)
      && (forall j, k :: 0 <= j < k < |m.items| ==> m.items[j] != m.items[k])
  {
    var all := base + overlay;
    var d := Dedup(all);
    assert Merged(Array(base), Array(overlay)) == Array(d);
    var at := DedupPicks(all);
    PickedOnce(all, d, at);
    PickedAll(all, d, at);
  }

  // ----- the two operations as the program runs them -----

  /** One pass with a set of keys already seen, keeping the first of each. */
  method DedupPreservingOrder(vec: seq<Value>) returns (kept: seq<Value>)
    ensures kept == Dedup(vec)
  {
    var seen: set<Json> := {};
    kept := [];
    for i := 0 to |vec|
      invariant seen == Keys(vec[..i])
      invariant kept == Dedup(vec[..i])
    {
      assert vec[..i + 1] == vec[..i] + [vec[i]];
      DedupLast(vec[..i], vec[i]);
      KeysLast(vec[..i], vec[i]);
      var key := Key(vec[i]);
      if key !in seen {
        kept := kept + [vec[i]];
      }
      seen := seen + {key};
    }
    assert vec[..|vec|] == vec;
  }

  lemma KeysLast(front: seq<Value>, last: Value)
    ensures Keys(front + [last]) == Keys(front) + {Key(last)}
  {
    KeysConcat(front, [last]);
    assert Keys([last]) == {Key(last)};
  }

  /** The base after the overlay's entries for `done` have been merged in. */
  function MergedOn(b: map<string, Value>, o: map<string, Value>, done: set<string>): map<string, Value>
    requires done <= o.Keys
  {
    map k | k in b.Keys + done ::
      if k !in done then b[k] else if k !in b then o[k] else Merged(b[k], o[k])
  }

  lemma MergedOnAll(b: map<string, Value>, o: map<string, Value>)
    ensures Merged(Table(b), Table(o)) == Table(MergedOn(b, o, o.Keys))
    ensures MergedOn(b, o, {}) == b
  {
    assert Merged(Table(b), Table(o)).entries == MergedOn(b, o, o.Keys);
  }

  /** The base with one entry merged into its slot. */
  function MergedInto(b: map<string, Value>, key: string, v: Value): map<string, Value> {
    b[key := if key in b then Merged(b[key], v) else v]
  }

  lemma MergedOnStep(b: map<string, Value>, o: map<string, Value>, todo: set<string>, k: string)
    requires k in todo && todo <= o.Keys
    ensures MergedOn(b, o, o.Keys - (todo - {k})) == MergedInto(MergedOn(b, o, o.Keys - todo), k, o[k])
  {
    var done := o.Keys - todo;
    assert o.Keys - (todo - {k}) == done + {k};
    var now := MergedOn(b, o, done);
    assert (k in now <==> k in b) && (k in b ==> now[k] == b[k]);
    assert MergedOn(b, o, done + {k}) == MergedInto(now, k, o[k]);
  }

  /** The recursive merge. */
  method MergeTomlValues(base: Value, overlay: Value) returns (merged: Value)
    ensures merged == Merged(base, overlay)
    decreases overlay, 1
  {
    if base.Table? && overlay.Table? {
      var entries := MergeTables(base.entries, overlay);
      MergedOnAll(base.entries, overlay.entries);
      merged := Table(entries);
    } else if base.Array? && overlay.Array? {
      var all := DedupPreservingOrder(base.items + overlay.items);
      merged := Array(all);
    } else {
      merged := overlay;
    }
  }

  /** One entry rewrites its slot. */
  method MergeEntry(base: map<string, Value>, key: string, v: Value) returns (b: map<string, Value>)
    ensures b == MergedInto(base, key, v)
    decreases v, 2
  {
    b := base;
    if key in b {
      var slot := MergeTomlValues(b[key], v);
      b := b[key := slot];
    } else {
      b := b[key := v];
    }
  }

  /** The overlay's entries are visited one at a time. */
  method MergeTables(base: map<string, Value>, overlay: Value) returns (b: map<string, Value>)
    requires overlay.Table?
    ensures b == MergedOn(base, overlay.entries, overlay.entries.Keys)
    decreases overlay, 0
  {
    var o := overlay.entries;
    var todo := o.Keys;
    b := base;
    MergedOnAll(base, o);
    assert o.Keys - todo == {};
    while todo != {}
      invariant todo <= o.Keys
      invariant b == MergedOn(base, o, o.Keys - todo)
      decreases |todo|
    {
      var k :| k in todo;
      MergedOnStep(base, o, todo, k);
      b := MergeEntry(b, k, o[k]);
      todo := todo - {k};
    }
    assert o.Keys - todo == o.Keys;
  }

  // ----- associativity, exactly -----

  /** Merging `c` over `a` leaves `c` as it is: `a` has no entry or element of its own. */
  ghost predicate Absorbed(a: Value, c: Value) {
    match (a, c)
    case (Table(x), Table(z)) => forall k :: k in x ==> k in z && Absorbed(x[k], z[k])
    case (Array(x), Array(z)) => Dedup(x) <= z && Distinct(z)
    case _ => true
  }

  lemma MergedArrays(x: seq<Value>, y: seq<Value>)
    ensures Merged(Array(x), Array(y)) == Array(Dedup(x + y))
  {
  }

  /** A repeated front changes nothing. */
  lemma DedupTwice(d: seq<Value>, r: seq<Value>)
    requires Distinct(d)
    ensures Dedup((d + d) + r) == Dedup(d + r)
  {
    assert Dedup(d + d) == d by {
      DedupAbsorbs(d, d);
      DistinctUnchanged(d);
    }
    DedupLeft(d + d, r);
  }

  lemma RepeatedFront(d: seq<Value>, z: seq<Value>)
    requires d <= z && Distinct(d)
    ensures Dedup(d + z) == Dedup(z)
  {
    var r := z[|d|..];
    assert z == d + r;
    assert d + z == (d + d) + r;
    DedupTwice(d, r);
  }

  lemma DistinctAbsorbs(x: seq<Value>, z: seq<Value>)
    requires Dedup(x) <= z && Distinct(z)
    ensures Dedup(x + z) == z
  {
    DedupLeft(x, z);
    assert Distinct(Dedup(x)) by { DedupKeys(x); }
    RepeatedFront(Dedup(x), z);
    DistinctUnchanged(z);
  }

  lemma AbsorbedArrays(x: seq<Value>, z: seq<Value>)
    ensures Dedup(x) <= z && Distinct(z) <==> Dedup(x + z) == z
  {
    if Dedup(x) <= z && Distinct(z) {
      DistinctAbsorbs(x, z);
    }
    if Dedup(x + z) == z {
      DedupPrefix(x, z);
      DedupKeys(x + z);
    }
  }

  lemma {:induction false} AbsorbedExactly(a: Value, c: Value)
    ensures Absorbed(a, c) <==> Merged(a, c) == c
  {
    match (a, c)
    case (Table(x), Table(z)) =>
      forall k | k in x && k in z ensures Absorbed(x[k], z[k]) <==> Merged(x[k], z[k]) == z[k] {
        AbsorbedExactly(x[k], z[k]);
      }
      AbsorbedTables(x, z);
    case (Array(x), Array(z)) =>
      AbsorbedArrays(x, z);
      MergedArrays(x, z);
    case _ =>
  }

  lemma AbsorbedTables(x: map<string, Value>, z: map<string, Value>)
    ensures Merged(Table(x), Table(z)) == Table(z) <==>
            forall k :: k in x ==> k in z && Merged(x[k], z[k]) == z[k]
  {
    var m := MergedOn(x, z, z.Keys);
    MergedOnAll(x, z);
    if forall k :: k in x ==> k in z && Merged(x[k], z[k]) == z[k] {
      assert m == z;
    } else {
      var k :| k in x && !(k in z && Merged(x[k], z[k]) == z[k]);
      assert k in m && (k in z ==> m[k] != z[k]);
    }
  }

  /** The condition for three layers to merge the same way from either side. At a path where
      the outer two are both tables (or both arrays) and the middle one is not, the middle
      layer cuts off the lower one when merging from the left, so the lower one must have
      nothing to add. */
  ghost predicate Associates(a: Value, b: Value, c: Value) {
    if !SameContainer(a, c) then true
    else if !SameContainer(a, b) then Absorbed(a, c)
    else a.Table? ==>
      forall k :: k in a.entries && k in b.entries && k in c.entries ==>
        Associates(a.entries[k], b.entries[k], c.entries[k])
  }

  lemma {:induction false} MergeAssociativeExactly(a: Value, b: Value, c: Value)
    ensures Merged(Merged(a, b), c) == Merged(a, Merged(b, c)) <==> Associates(a, b, c)
    decreases a, 2
  {
    if !SameContainer(a, c) || !SameContainer(a, b) {
      MergeWithClash(a, b, c);
      AbsorbedExactly(a, c);
    } else if a.Array? {
      MergeArraysAssociative(a.items, b.items, c.items);
    } else {
      MergeTablesAssociative(a, b, c);
    }
  }

  lemma MergeWithClash(a: Value, b: Value, c: Value)
    requires !SameContainer(a, c) || !SameContainer(a, b)
    ensures !SameContainer(a, c) ==> Merged(Merged(a, b), c) == Merged(a, Merged(b, c))
    ensures SameContainer(a, c) ==> Merged(Merged(a, b), c) == c && Merged(b, c) == c
  {
    if !SameContainer(a, b) {
      assert Merged(a, b) == b;
      if !SameContainer(b, c) {
        assert Merged(b, c) == c;
      }
    } else {
      assert !SameContainer(b, c);
      assert Merged(b, c) == c;
    }
  }

  lemma DedupBothSides(x: seq<Value>, y: seq<Value>, z: seq<Value>)
    ensures Dedup(Dedup(x + y) + z) == Dedup(x + Dedup(y + z))
  {
    assert (x + y) + z == x + (y + z);
    assert Dedup(Dedup(x + y) + z) == Dedup((x + y) + z) by { DedupLeft(x + y, z); }
    assert Dedup(x + Dedup(y + z)) == Dedup(x + (y + z)) by { DedupRight(x, y + z); }
  }

  lemma MergeArraysAssociative(x: seq<Value>, y: seq<Value>, z: seq<Value>)
    ensures Merged(Merged(Array(x), Array(y)), Array(z)) ==
            Merged(Array(x), Merged(Array(y), Array(z)))
  {
    DedupBothSides(x, y, z);
    MergedArrays(x, y);
    MergedArrays(y, z);
    MergedArrays(Dedup(x + y), z);
    MergedArrays(x, Dedup(y + z));
  }

  lemma MergedKey(b: map<string, Value>, o: map<string, Value>, k: string)
    ensures var m := Merged(Table(b), Table(o));
            && m.Table?
            && (k in m.entries <==> k in b || k in o)
            && (k in m.entries ==>
                  m.entries[k] == if k !in o then b[k] else if k !in b then o[k] else Merged(b[k], o[k]))
  {
  }

  lemma {:induction false} MergeAssociativeAt(a: Value, b: Value, c: Value, k: string)
    requires a.Table? && b.Table? && c.Table?
    ensures var l, r := Merged(Merged(a, b), c), Merged(a, Merged(b, c));
            && l.Table? && r.Table?
            && (k in l.entries <==> k in r.entries)
            && (k in a.entries && k in b.entries && k in c.entries ==> k in l.entries)
            && (k in l.entries ==>
                  (l.entries[k] == r.entries[k] <==>
                    (k in a.entries && k in b.entries && k in c.entries ==>
                       Associates(a.entries[k], b.entries[k], c.entries[k]))))
    decreases a, 0
  {
    var x, y, z := a.entries, b.entries, c.entries;
    MergedKey(x, y, k);
    MergedKey(y, z, k);
    MergedKey(Merged(a, b).entries, z, k);
    MergedKey(x, Merged(b, c).entries, k);
    if k in x && k in y && k in z {
      MergeAssociativeExactly(x[k], y[k], z[k]);
    }
  }

  lemma {:induction false} MergeTablesAssociative(a: Value, b: Value, c: Value)
    requires a.Table? && b.Table? && c.Table?
    ensures Merged(Merged(a, b), c) == Merged(a, Merged(b, c)) <==> Associates(a, b, c)
    decreases a, 1
  {
    var l, r := Merged(Merged(a, b), c), Merged(a, Merged(b, c));
    if Associates(a, b, c) {
      forall k ensures (k in l.entries <==> k in r.entries) &&
                       (k in l.entries && k in r.entries ==> l.entries[k] == r.entries[k])
      {
        MergeAssociativeAt(a, b, c, k);
      }
      assert l.entries == r.entries;
    } else {
      var k :| k in a.entries && k in b.entries && k in c.entries &&
               !Associates(a.entries[k], b.entries[k], c.entries[k]);
      MergeAssociativeAt(a, b, c, k);
    }
  }

  /** No path at which the outer layers agree on being a table, or an array, and the middle
      one differs: then merging is associative. */
  ghost predicate NoKindClash(a: Value, b: Value, c: Value) {
    SameContainer(a, c) ==>
      SameContainer(a, b) &&
      (a.Table? ==> forall k :: k in a.entries && k in b.entries && k in c.entries ==>
         NoKindClash(a.entries[k], b.entries[k], c.entries[k]))
  }

  lemma {:induction false} NoKindClashAssociates(a: Value, b: Value, c: Value)
    requires NoKindClash(a, b, c)
    ensures Associates(a, b, c)
    ensures Merged(Merged(a, b), c) == Merged(a, Merged(b, c))
  {
    if SameContainer(a, c) && a.Table? {
      forall k | k in a.entries && k in b.entries && k in c.entries
        ensures Associates(a.entries[k], b.entries[k], c.entries[k])
      {
        NoKindClashAssociates(a.entries[k], b.entries[k], c.entries[k]);
      }
    }
    MergeAssociativeExactly(a, b, c);
  }

  /** Merging is not associative in general: a string between two tables is enough. */
  lemma KindClashExample(a: Value, b: Value, c: Value)
    requires a == Table(map["lower" := Boolean(true)])
    requires b == String("middle")
    requires c == Table(map["upper" := Boolean(true)])
    ensures Merged(Merged(a, b), c) == c
    ensures Merged(a, Merged(b, c)) ==
            Table(map["lower" := Boolean(true), "upper" := Boolean(true)])
  {
    assert Merged(b, c) == c;
    assert Merged(a, c).entries == map["lower" := Boolean(true), "upper" := Boolean(true)];
  }
}
