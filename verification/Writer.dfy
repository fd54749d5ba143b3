/** Setting one key of a configuration file in place (crates/config/src/writer.rs). The
    document is the editable kind that remembers how each value was written. */
module Writer {
  import opened Values
  import opened Text

  // ----- editable documents -----

  /** The text around a value: whitespace and comments, when it has any of its own. */
  datatype Decor = Decor(prefix: Option<string>, suffix: Option<string>)

  /** A value as written; tables inside values are inline tables. */
  datatype EditValue = EditValue(value: Value, decor: Decor)

  datatype Item =
    | ValueItem(v: EditValue)
    | TableItem(entries: map<string, Item>)
    | TablesItem(tables: seq<map<string, Item>>)   // an array of tables

  type Document = map<string, Item>

  const PLAIN := Decor(None, None)

  // ----- writing a value into a document -----

  /** The value as it is written: a datetime becomes a string, all the way down. */
  function ToEdit(v: Value): Value {
    match v
    case Datetime(d) => String(d)
    case Array(items) => Array(seq(|items|, i requires 0 <= i < |items| => ToEdit(items[i])))
    case Table(entries) => Table(map k | k in entries :: ToEdit(entries[k]))
    case _ => v
  }

  /** `w` is what is written for `v`: the same tree, but for datetimes, which are strings. */
  ghost predicate WrittenAs(v: Value, w: Value) {
    match v
    case Datetime(d) => w == String(d)
    case Array(items) =>
      w.Array? && |w.items| == |items| && forall i :: 0 <= i < |items| ==> WrittenAs(items[i], w.items[i])
    case Table(entries) =>
      w.Table? && w.entries.Keys == entries.Keys && forall k :: k in entries ==> WrittenAs(entries[k], w.entries[k])
    case _ => w == v
  }

  lemma {:induction false} EditIsWritten(v: Value)
    ensures WrittenAs(v, ToEdit(v))
  {
    match v
    case Array(items) =>
      forall i | 0 <= i < |items| ensures WrittenAs(items[i], ToEdit(items[i])) {
        EditIsWritten(items[i]);
      }
    case Table(entries) =>
      forall k | k in entries ensures WrittenAs(entries[k], ToEdit(entries[k])) {
        EditIsWritten(entries[k]);
      }
    case _ =>
  }

  lemma {:induction false} WrittenIsEdit(v: Value, w: Value)
    requires WrittenAs(v, w)
    ensures w == ToEdit(v)
  {
    match v
    case Array(items) =>
      forall i | 0 <= i < |items| ensures w.items[i] == ToEdit(items[i]) {
        WrittenIsEdit(items[i], w.items[i]);
      }
      assert w.items == ToEdit(v).items;
    case Table(entries) =>
      forall k | k in entries ensures w.entries[k] == ToEdit(entries[k]) {
        WrittenIsEdit(entries[k], w.entries[k]);
      }
      assert w.entries == ToEdit(v).entries;
    case _ =>
  }

  /** The value is written as the same tree, but for datetimes, and in no other way. */
  lemma WrittenExactly(v: Value, w: Value)
    ensures WrittenAs(v, w) <==> w == ToEdit(v)
  {
    EditIsWritten(v);
    if WrittenAs(v, w) {
      WrittenIsEdit(v, w);
    }
  }

  /** The last step: overwrite the slot. A value in the slot keeps the text around it. */
  function SetLast(t: map<string, Item>, key: string, v: Value): map<string, Item> {
    if key in t && t[key].ValueItem? then t[key := ValueItem(EditValue(v, t[key].v.decor))]
    else t[key := ValueItem(EditValue(v, PLAIN))]
  }

  method SetSlot(t: map<string, Item>, key: string, v: Value) returns (result: map<string, Item>)
    ensures result == SetLast(t, key, v)
  {
    if key in t && t[key].ValueItem? {
      var decor := t[key].v.decor;
      var replacement := EditValue(v, PLAIN);
      if decor.prefix.Some? {
        replacement := replacement.(decor := replacement.decor.(prefix := decor.prefix));
      }
      if decor.suffix.Some? {
        replacement := replacement.(decor := replacement.decor.(suffix := decor.suffix));
      }
      result := t[key := ValueItem(replacement)];
    } else {
      result := t[key := ValueItem(EditValue(v, PLAIN))];
    }
  }

  /** Setting the value at a path of keys; none when something on the way is not a table. */
  function Inserted(t: map<string, Item>, path: seq<string>, v: Value): Option<map<string, Item>>
    requires path != []
    decreases |path|
  {
    if |path| == 1 then Some(SetLast(t, path[0], v))
    else
      var child := if path[0] in t then t[path[0]] else TableItem(map[]);
      if !child.TableItem? then None
      else
        match Inserted(child.entries, path[1..], v)
        case None => None
        case Some(sub) => Some(t[path[0] := TableItem(sub)])
  }

  // ----- looking into a document -----

  function Find(t: map<string, Item>, path: seq<string>): Option<Item>
    decreases |path|
  {
    if path == [] then Some(TableItem(t))
    else if path[0] !in t then None
    else if |path| == 1 then Some(t[path[0]])
    else if t[path[0]].TableItem? then Find(t[path[0]].entries, path[1..])
    else None
  }

  /** The document with the table at a path replaced through a reference to it, tables that
      were missing on the way being created. */
  function WriteTable(t: map<string, Item>, path: seq<string>, table: map<string, Item>): map<string, Item>
    decreases |path|
  {
    if path == [] then table
    else
      var sub := if path[0] in t && t[path[0]].TableItem? then t[path[0]].entries else map[];
      t[path[0] := TableItem(WriteTable(sub, path[1..], table))]
  }

  /** The table a cursor is at after descending, missing tables being created on the way; none
      when something on the way is not a table. */
  function Descended(t: map<string, Item>, path: seq<string>): Option<map<string, Item>>
    decreases |path|
  {
    if path == [] then Some(t)
    else
      var child := if path[0] in t then t[path[0]] else TableItem(map[]);
      if child.TableItem? then Descended(child.entries, path[1..]) else None
  }

  lemma {:induction false} DescendStep(t: map<string, Item>, path: seq<string>, key: string)
    requires Descended(t, path).Some?
    ensures Descended(t, path + [key]) == Descended(Descended(t, path).value, [key])
    decreases |path|
  {
    if path == [] {
      assert path + [key] == [key];
    } else {
      assert (path + [key])[1..] == path[1..] + [key];
      DescendStep(if path[0] in t then t[path[0]].entries else map[], path[1..], key);
    }
  }

  lemma {:induction false} DescendStuck(t: map<string, Item>, path: seq<string>, key: string, rest: seq<string>)
    requires Descended(t, path).Some? && Descended(Descended(t, path).value, [key]).None?
    ensures Descended(t, path + [key] + rest).None?
    decreases |path|
  {
    var all := path + [key] + rest;
    if path == [] {
      assert all == [key] + rest && all[1..] == rest;
    } else {
      assert all[1..] == path[1..] + [key] + rest;
      DescendStuck(if path[0] in t then t[path[0]].entries else map[], path[1..], key, rest);
    }
  }

  lemma StuckAt(t: map<string, Item>, path: seq<string>, i: nat)
    requires i < |path| && Descended(t, path[..i]).Some?
    requires Descended(Descended(t, path[..i]).value, [path[i]]).None?
    ensures Descended(t, path).None?
  {
    assert path == path[..i] + [path[i]] + path[i + 1..];
    DescendStuck(t, path[..i], path[i], path[i + 1..]);
  }

  /** Inserting is writing the last step back through the table the cursor is at. */
  lemma {:induction false} InsertThroughCursor(t: map<string, Item>, parents: seq<string>, last: string, v: Value)
    ensures Inserted(t, parents + [last], v) ==
            match Descended(t, parents)
            case None => None
            case Some(table) => Some(WriteTable(t, parents, SetLast(table, last, v)))
    decreases |parents|
  {
    var all := parents + [last];
    if parents == [] {
      assert all == [last];
    } else {
      assert all[1..] == parents[1..] + [last];
      InsertThroughCursor(if parents[0] in t && t[parents[0]].TableItem? then t[parents[0]].entries else map[],
                          parents[1..], last, v);
    }
  }

  /** The document after a cursor has descended: missing tables on the way exist. */
  function Prepared(t: map<string, Item>, path: seq<string>): map<string, Item>
    requires Descended(t, path).Some?
    decreases |path|
  {
    if path == [] then t
    else t[path[0] := TableItem(Prepared(Entry(t, path[0]).entries, path[1..]))]
  }

  function Entry(t: map<string, Item>, key: string): Item {
    if key in t then t[key] else TableItem(map[])
  }

  lemma {:induction false} PrepareStep(t: map<string, Item>, path: seq<string>, key: string)
    requires Descended(t, path + [key]).Some? && Descended(t, path).Some?
    ensures var table := Descended(t, path).value;
            if key in table then Prepared(t, path + [key]) == Prepared(t, path)
            else Prepared(t, path + [key]) ==
                 WriteTable(Prepared(t, path), path, table[key := TableItem(map[])])
    decreases |path|
  {
    var all := path + [key];
    if path == [] {
      assert all == [key];
    } else {
      assert all[1..] == path[1..] + [key];
      PrepareStep(Entry(t, path[0]).entries, path[1..], key);
    }
  }

  lemma {:induction false} WritePrepared(t: map<string, Item>, path: seq<string>, table: map<string, Item>)
    requires Descended(t, path).Some?
    ensures WriteTable(Prepared(t, path), path, table) == WriteTable(t, path, table)
    decreases |path|
  {
    if path != [] {
      var sub := Entry(t, path[0]).entries;
      WritePrepared(sub, path[1..], table);
      var l, r := WriteTable(Prepared(t, path), path, table), WriteTable(t, path, table);
      assert l == Prepared(t, path)[path[0] := TableItem(WriteTable(Prepared(sub, path[1..]), path[1..], table))];
      assert r == t[path[0] := TableItem(WriteTable(sub, path[1..], table))];
    }
  }

  // ----- the operation -----

  /** The keys of a dotted path, unless one is empty. */
  function KeyPath(path: string): Result<seq<string>> {
    if "" in Split(path, '.') then Err("invalid key path: empty segment") else Ok(Split(path, '.'))
  }

  /** The keys are the non-empty pieces between the dots, all of them. */
  lemma KeyPathExactly(path: string, keys: seq<string>)
    ensures KeyPath(path) == Ok(keys) <==>
            keys != [] && Join(keys, '.') == path && forall k :: k in keys ==> k != "" && !Contains(k, '.')
  {
    JoinSplit(path, '.');
    if keys != [] && Join(keys, '.') == path && forall k :: k in keys ==> k != "" && !Contains(k, '.') {
      assert forall i :: 0 <= i < |keys| ==> keys[i] in keys;
      SplitJoin(keys, '.');
      assert "" !in keys;
    }
  }

  /** Moves a cursor down, creating missing tables in the document; refuses to turn anything
      else into one. When it refuses it has created nothing: below a created table there is
      nothing to refuse. */
  method Descend(doc: Document, parents: seq<string>)
    returns (cursor: Option<map<string, Item>>, now: Document)
    ensures cursor == Descended(doc, parents)
    ensures cursor.Some? ==> now == Prepared(doc, parents)
    ensures cursor.None? ==> now == doc
  {
    var c := doc;
    now := doc;
    ghost var created := false;
    for i := 0 to |parents|
      invariant Descended(doc, parents[..i]) == Some(c)
      invariant now == Prepared(doc, parents[..i])
      invariant if created then c == map[] else now == doc
    {
      assert parents[..i + 1] == parents[..i] + [parents[i]];
      DescendStep(doc, parents[..i], parents[i]);
      if parents[i] !in c {
        created := true;
        c := c[parents[i] := TableItem(map[])];
        now := WriteTable(now, parents[..i], c);
      }
      var entry := c[parents[i]];
      if !entry.TableItem? {
        StuckAt(doc, parents, i);
        return None, now;
      }
      PrepareStep(doc, parents[..i], parents[i]);
      c := entry.entries;
    }
    assert parents[..|parents|] == parents;
    cursor := Some(c);
  }

  method InsertAtPath(doc: Document, keyPath: string, newValue: Value)
    returns (r: Result<()>, result: Document)
    ensures r.Ok? <==> KeyPath(keyPath).Ok? && Inserted(doc, KeyPath(keyPath).value, ToEdit(newValue)).Some?
    ensures r.Ok? ==> Some(result) == Inserted(doc, KeyPath(keyPath).value, ToEdit(newValue))
    ensures r.Err? ==> result == doc
  {
    var segments := Split(keyPath, '.');
    if "" in segments {
      return Err("empty segment"), doc;
    }
    var parents, last := segments[..|segments| - 1], segments[|segments| - 1];
    assert segments == parents + [last];
    InsertThroughCursor(doc, parents, last, ToEdit(newValue));
    var cursor, now := Descend(doc, parents);
    if cursor.None? {
      return Err("not a table"), now;
    }
    var table := SetSlot(cursor.value, last, ToEdit(newValue));
    WritePrepared(doc, parents, table);
    return Ok(()), WriteTable(now, parents, table);
  }

  // ----- what a successful insert gives -----

  /** The value can be read back at its path, with the decor of the value it replaced. */
  lemma {:induction false} ReadBack(t: map<string, Item>, path: seq<string>, v: Value)
    requires path != [] && Inserted(t, path, v).Some?
    ensures var now := Find(Inserted(t, path, v).value, path);
            && now.Some? && now.value.ValueItem? && now.value.v.value == v
            && now.value.v.decor ==
                 (if Find(t, path).Some? && Find(t, path).value.ValueItem? then Find(t, path).value.v.decor
                  else PLAIN)
    decreases |path|
  {
    if |path| > 1 {
      var child := Entry(t, path[0]);
      ReadBack(child.entries, path[1..], v);
      if path[0] !in t {
        FindInEmpty(path[1..]);
      }
    }
  }

  lemma FindInEmpty(path: seq<string>)
    requires path != []
    ensures Find(map[], path).None?
  {
  }

  /** Every path that is neither on the way to the value nor below it is as it was. */
  lemma {:induction false} ElsewhereUnchanged(t: map<string, Item>, path: seq<string>, v: Value, other: seq<string>)
    requires path != [] && Inserted(t, path, v).Some?
    requires !(other <= path) && !(path <= other)
    ensures Find(Inserted(t, path, v).value, other) == Find(t, other)
    decreases |path|
  {
    assert |path| == 1 && path[0] == other[0] ==> path <= other;
    if path[0] == other[0] && |path| > 1 {
      var child := Entry(t, path[0]);
      assert path == [path[0]] + path[1..] && other == [other[0]] + other[1..];
      assert |other| > 1;
      ElsewhereUnchanged(child.entries, path[1..], v, other[1..]);
      if path[0] !in t {
        FindInEmpty(other[1..]);
      }
    }
  }

  /** It fails exactly when a proper prefix of the path holds something other than a table. */
  lemma {:induction false} FailsExactly(t: map<string, Item>, path: seq<string>, v: Value)
    requires path != []
    ensures Inserted(t, path, v).None? <==>
            exists n :: 0 < n < |path| && Find(t, path[..n]).Some? && !Find(t, path[..n]).value.TableItem?
    decreases |path|
  {
    if |path| > 1 {
      var child := Entry(t, path[0]);
      var sub := if child.TableItem? then child.entries else map[];
      FailsExactly(sub, path[1..], v);
      forall n | 1 < n < |path|
        ensures path[..n][1..] == path[1..][..n - 1]
      {
      }
      assert path[..1] == [path[0]];
      if !child.TableItem? {
        assert Find(t, path[..1]).Some? && !Find(t, path[..1]).value.TableItem?;
      } else {
        StuckBelow(t, path, sub);
      }
    }
  }

  lemma StuckBelow(t: map<string, Item>, path: seq<string>, sub: map<string, Item>)
    requires |path| > 1
    requires if path[0] in t then t[path[0]] == TableItem(sub) else sub == map[]
    ensures (exists n :: 0 < n < |path| && Find(t, path[..n]).Some? && !Find(t, path[..n]).value.TableItem?) <==>
            (exists n :: 0 < n < |path[1..]| && Find(sub, path[1..][..n]).Some? &&
                           !Find(sub, path[1..][..n]).value.TableItem?)
  {
    forall n | 1 < n < |path| ensures Find(t, path[..n]) == Find(sub, path[1..][..n - 1]) {
      assert path[..n][1..] == path[1..][..n - 1];
      if path[0] !in t { FindInEmpty(path[1..][..n - 1]); }
    }
    assert path[..1] == [path[0]];
    if n :| 0 < n < |path[1..]| && Find(sub, path[1..][..n]).Some? && !Find(sub, path[1..][..n]).value.TableItem? {
      assert path[1..][..n + 1 - 1] == path[1..][..n];
      assert Find(t, path[..n + 1]) == Find(sub, path[1..][..n + 1 - 1]);
    }
    if n :| 0 < n < |path| && Find(t, path[..n]).Some? && !Find(t, path[..n]).value.TableItem? {
      assert n > 1;
      assert Find(sub, path[1..][..n - 1]) == Find(t, path[..n]);
    }
  }
}
