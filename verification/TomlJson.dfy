/** The two converters between TOML and JSON trees (crates/config/src/config.rs,
    crates/config/src/plugin_loader.rs). */
module TomlJson {
  import opened Values

  // ----- TOML to JSON -----

  /** JSON has no datetimes, which become strings, and no non-finite numbers, which become
      null. */
  function ToJson(v: Value): Json {
    match v
    case String(s) => Str(s)
    case Integer(i) => Num(Int(i))
    case Float(Finite(neg, mag)) => Num(Decimal(neg, mag))
    case Float(_) => Null
    case Boolean(b) => Bool(b)
    case Datetime(d) => Str(d)
    case Array(items) => Arr(seq(|items|, i requires 0 <= i < |items| => ToJson(items[i])))
    case Table(entries) => Obj(map k | k in entries :: ToJson(entries[k]))
  }

  // ----- JSON to TOML -----

  function NonNull(xs: seq<Json>): (r: seq<Json>)
    ensures forall i :: 0 <= i < |r| ==> r[i] in xs && !r[i].Null?
  {
    if xs == [] then [] else (if xs[0].Null? then [] else [xs[0]]) + NonNull(xs[1..])
  }

  /** TOML has no null: null entries and elements are dropped, and a null document is an empty
      table. An integer beyond 64 signed bits becomes the float `round` gives for it. */
  function FromJson(j: Json, round: JsonInt -> Double): Value {
    match j
    case Null => Table(map[])
    case Bool(b) => Boolean(b)
    case Num(Int(i)) => if i <= I64_MAX then Integer(i) else Float(round(i))
    case Num(Decimal(neg, mag)) => Float(Finite(neg, mag))
    case Str(s) => String(s)
    case Arr(elems) =>
      var kept := NonNull(elems);
      Array(seq(|kept|, i requires 0 <= i < |kept| => FromJson(kept[i], round)))
    case Obj(fields) =>
      Table(map k | k in fields && !fields[k].Null? :: FromJson(fields[k], round))
  }

  /** The object case fills a table entry by entry. */
  method ConvertObject(fields: map<string, Json>, round: JsonInt -> Double) returns (table: map<string, Value>)
    ensures Table(table) == FromJson(Obj(fields), round)
  {
    table := map[];
    var todo := fields.Keys;
    while todo != {}
      invariant todo <= fields.Keys
      invariant table == map k | k in fields && k !in todo && !fields[k].Null? :: FromJson(fields[k], round)
      decreases |todo|
    {
      var k :| k in todo;
      if !fields[k].Null? {
        table := table[k := FromJson(fields[k], round)];
      }
      todo := todo - {k};
    }
    assert table == FromJson(Obj(fields), round).entries;
  }

  // ----- TOML to JSON and back -----

  /** No datetime and no non-finite number anywhere. */
  predicate Clean(v: Value) {
    match v
    case Float(f) => f.Finite?
    case Datetime(_) => false
    case Array(items) => forall i :: 0 <= i < |items| ==> Clean(items[i])
    case Table(entries) => forall k :: k in entries ==> Clean(entries[k])
    case _ => true
  }

  function ItemsToJson(items: seq<Value>): (r: seq<Json>)
    ensures |r| == |items| && forall i :: 0 <= i < |r| ==> r[i] == ToJson(items[i])
  {
    seq(|items|, i requires 0 <= i < |items| => ToJson(items[i]))
  }

  /** What a non-finite number becomes, nothing, apart from the other values. */
  predicate Vanishes(v: Value) {
    v.Float? && !v.f.Finite?
  }

  function Staying(items: seq<Value>): (r: seq<Value>)
    ensures forall i :: 0 <= i < |r| ==> r[i] in items && !Vanishes(r[i])
  {
    if items == [] then [] else (if Vanishes(items[0]) then [] else [items[0]]) + Staying(items[1..])
  }

  /** What is left of a tree: datetimes are strings, and non-finite numbers are gone from every
      list and table. */
  function Bridged(v: Value): Value {
    match v
    case Datetime(d) => String(d)
    case Array(items) =>
      var kept := Staying(items);
      Array(seq(|kept|, i requires 0 <= i < |kept| => Bridged(kept[i])))
    case Table(entries) => Table(map k | k in entries && !Vanishes(entries[k]) :: Bridged(entries[k]))
    case _ => if Vanishes(v) then Table(map[]) else v
  }

  lemma ItemsCons(x: Value, xs: seq<Value>)
    ensures ItemsToJson([x] + xs) == [ToJson(x)] + ItemsToJson(xs)
  {
  }

  lemma NonNullCons(x: Json, xs: seq<Json>)
    ensures NonNull([x] + xs) == (if x.Null? then [] else [x]) + NonNull(xs)
  {
    assert ([x] + xs)[1..] == xs;
  }

  lemma {:induction false} StayingToJson(items: seq<Value>)
    ensures NonNull(ItemsToJson(items)) == ItemsToJson(Staying(items))
  {
    if items != [] {
      var x, rest := items[0], items[1..];
      StayingToJson(rest);
      assert items == [x] + rest;
      ItemsCons(x, rest);
      NonNullCons(ToJson(x), ItemsToJson(rest));
      VanishingIsNull(x);
      ItemsCons(x, Staying(rest));
    }
  }

  lemma VanishingIsNull(v: Value)
    ensures ToJson(v).Null? <==> Vanishes(v)
  {
  }

  /** What every TOML tree is after the way to JSON and back. */
  lemma {:induction false} TomlThroughJson(v: Value, round: JsonInt -> Double)
    ensures FromJson(ToJson(v), round) == Bridged(v)
  {
    match v
    case Array(items) =>
      StayingToJson(items);
      assert ToJson(v) == Arr(ItemsToJson(items));
      var kept := Staying(items);
      forall i | 0 <= i < |kept| ensures FromJson(ItemsToJson(kept)[i], round) == Bridged(kept[i]) {
        TomlThroughJson(kept[i], round);
      }
      assert FromJson(ToJson(v), round).items == Bridged(v).items;
    case Table(entries) =>
      forall k | k in entries && !Vanishes(entries[k])
        ensures FromJson(ToJson(entries[k]), round) == Bridged(entries[k])
      {
        TomlThroughJson(entries[k], round);
      }
      assert FromJson(ToJson(v), round).entries == Bridged(v).entries;
    case _ =>
  }

  lemma {:induction false} StayingLength(items: seq<Value>)
    ensures |Staying(items)| <= |items|
    ensures (forall i :: 0 <= i < |items| ==> !Vanishes(items[i])) ==> Staying(items) == items
    ensures (exists i :: 0 <= i < |items| && Vanishes(items[i])) ==> |Staying(items)| < |items|
  {
    if items != [] {
      var x, rest := items[0], items[1..];
      StayingLength(rest);
      assert items == [x] + rest;
      assert forall i :: 1 <= i < |items| ==> items[i] == rest[i - 1];
      assert Staying(items) == (if Vanishes(x) then [] else [x]) + Staying(rest);
    }
  }

  lemma {:induction false} BridgedExactly(v: Value)
    ensures Bridged(v) == v <==> Clean(v)
    decreases v, 1
  {
    match v
    case Array(items) => BridgedArray(items, v);
    case Table(entries) => BridgedTable(entries, v);
    case _ =>
  }

  lemma {:induction false} BridgedArray(items: seq<Value>, v: Value)
    requires v == Array(items)
    ensures Bridged(v) == v <==> Clean(v)
    decreases v, 0
  {
    StayingLength(items);
    if exists i :: 0 <= i < |items| && Vanishes(items[i]) {
      var i :| 0 <= i < |items| && Vanishes(items[i]);
      assert !Clean(items[i]) && |Bridged(v).items| < |items|;
    } else {
      assert Staying(items) == items;
      forall i | 0 <= i < |items| ensures Bridged(v).items[i] == items[i] <==> Clean(items[i]) {
        BridgedExactly(items[i]);
      }
      assert Clean(v) ==> Bridged(v).items == items;
    }
  }

  lemma {:induction false} BridgedTable(entries: map<string, Value>, v: Value)
    requires v == Table(entries)
    ensures Bridged(v) == v <==> Clean(v)
    decreases v, 0
  {
    var left := Bridged(v).entries;
    forall k | k in entries ensures k in left && left[k] == entries[k] <==> Clean(entries[k]) {
      BridgedExactly(entries[k]);
    }
    if Clean(v) {
      assert left == entries;
    } else {
      var k :| k in entries && !Clean(entries[k]);
      assert left != entries;
    }
  }

  /** A TOML tree survives the way to JSON and back exactly when it is clean. */
  lemma TomlRoundTripExactly(v: Value, round: JsonInt -> Double)
    ensures FromJson(ToJson(v), round) == v <==> Clean(v)
  {
    TomlThroughJson(v, round);
    BridgedExactly(v);
  }

  // ----- JSON to TOML and back -----

  /** The document without its nulls; a null document is an empty object. */
  function Stripped(j: Json): Json {
    match j
    case Null => Obj(map[])
    case Arr(elems) =>
      var kept := NonNull(elems);
      Arr(seq(|kept|, i requires 0 <= i < |kept| => Stripped(kept[i])))
    case Obj(fields) => Obj(map k | k in fields && !fields[k].Null? :: Stripped(fields[k]))
    case _ => j
  }

  /** Every integer fits into 64 signed bits. */
  predicate FitsI64(j: Json) {
    match j
    case Num(Int(i)) => i <= I64_MAX
    case Arr(elems) => forall i :: 0 <= i < |elems| ==> FitsI64(elems[i])
    case Obj(fields) => forall k :: k in fields ==> FitsI64(fields[k])
    case _ => true
  }

  lemma {:induction false} NonNullMember(xs: seq<Json>, x: Json)
    ensures x in NonNull(xs) <==> x in xs && !x.Null?
  {
    if xs != [] {
      NonNullMember(xs[1..], x);
      assert x in xs <==> x == xs[0] || x in xs[1..];
    }
  }

  /** A JSON document comes back from TOML as itself without nulls exactly when its integers
      fit into 64 signed bits. */
  lemma {:induction false} JsonRoundTripExactly(j: Json, round: JsonInt -> Double)
    ensures ToJson(FromJson(j, round)) == Stripped(j) <==> FitsI64(j)
    decreases j, 1
  {
    match j
    case Arr(elems) => ElemsRoundTrip(elems, j, round);
    case Obj(fields) => FieldsRoundTrip(fields, j, round);
    case _ =>
  }

  lemma {:induction false} ElemsRoundTrip(elems: seq<Json>, j: Json, round: JsonInt -> Double)
    requires j == Arr(elems)
    ensures ToJson(FromJson(j, round)) == Stripped(j) <==> FitsI64(j)
    decreases j, 0
  {
    var kept := NonNull(elems);
    var l, r := ToJson(FromJson(j, round)).elems, Stripped(j).elems;
    assert |l| == |r| == |kept|;
    forall i | 0 <= i < |kept| ensures l[i] == r[i] <==> FitsI64(kept[i]) {
      JsonRoundTripExactly(kept[i], round);
      assert l[i] == ToJson(FromJson(kept[i], round)) && r[i] == Stripped(kept[i]);
    }
    if FitsI64(j) {
      assert l == r;
    } else {
      var i :| 0 <= i < |elems| && !FitsI64(elems[i]);
      NonNullMember(elems, elems[i]);
      var k :| 0 <= k < |kept| && kept[k] == elems[i];
      assert l[k] != r[k];
    }
  }

  lemma {:induction false} FieldsRoundTrip(fields: map<string, Json>, j: Json, round: JsonInt -> Double)
    requires j == Obj(fields)
    ensures ToJson(FromJson(j, round)) == Stripped(j) <==> FitsI64(j)
    decreases j, 0
  {
    var l, r := ToJson(FromJson(j, round)).fields, Stripped(j).fields;
    assert l.Keys == r.Keys;
    forall k | k in l ensures l[k] == r[k] <==> FitsI64(fields[k]) {
      JsonRoundTripExactly(fields[k], round);
    }
    if FitsI64(j) {
      assert l == r;
    } else {
      var k :| k in fields && !FitsI64(fields[k]);
      assert k in l && l[k] != r[k];
    }
  }

  /** The document after the way to TOML and back: without its nulls, and with every integer
      beyond 64 signed bits as the number it was rounded to, or null when that is not finite. */
  function Returning(j: Json, round: JsonInt -> Double): Json {
    match j
    case Null => Obj(map[])
    case Num(Int(i)) =>
      if i <= I64_MAX then j
      else (match round(i)
            case Finite(neg, mag) => Num(Decimal(neg, mag))
            case _ => Null)
    case Arr(elems) =>
      var kept := NonNull(elems);
      Arr(seq(|kept|, i requires 0 <= i < |kept| => Returning(kept[i], round)))
    case Obj(fields) => Obj(map k | k in fields && !fields[k].Null? :: Returning(fields[k], round))
    case _ => j
  }

  /** What every JSON document is after the way to TOML and back. */
  lemma {:induction false} JsonThroughToml(j: Json, round: JsonInt -> Double)
    ensures ToJson(FromJson(j, round)) == Returning(j, round)
  {
    match j
    case Arr(elems) =>
      var kept := NonNull(elems);
      forall i | 0 <= i < |kept| ensures ToJson(FromJson(kept[i], round)) == Returning(kept[i], round) {
        JsonThroughToml(kept[i], round);
      }
      assert ToJson(FromJson(j, round)).elems == Returning(j, round).elems;
    case Obj(fields) =>
      forall k | k in fields && !fields[k].Null?
        ensures ToJson(FromJson(fields[k], round)) == Returning(fields[k], round)
      {
        JsonThroughToml(fields[k], round);
      }
      assert ToJson(FromJson(j, round)).fields == Returning(j, round).fields;
    case _ =>
  }
}
