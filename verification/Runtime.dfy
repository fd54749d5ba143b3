/** The runtime layer: environment variables and `-c KEY.PATH=VALUE` overrides
    (crates/config/src/runtime.rs), folded into a tree of their own before they are merged
    over the file layers (crates/config/src/loader.rs). */
module Runtime {
  import opened Values
  import opened Text
  import opened Merge
  import opened Layers

  // ----- environment -----

  /** Environment variables and the configuration keys they set. */
  const ENV_VARS: seq<(string, string)> := [
    ("CRAB_MODEL", "model"),
    ("CRAB_API_PROVIDER", "api_provider"),
    ("CRAB_DEFAULT_SHELL", "default_shell"),
    ("CRAB_BASE_URL", "base_url")]

  predicate Sets(env: map<string, string>, name: string) {
    name in env && env[name] != ""
  }

  /** The keys whose variable is set and not empty, as strings. */
  function EnvTable(env: map<string, string>, vars: seq<(string, string)>): (t: map<string, Value>)
    ensures forall key :: key in t ==> t[key].String?
    ensures forall key :: key in t <==>
              exists i :: 0 <= i < |vars| && vars[i].1 == key && Sets(env, vars[i].0)
  {
    if vars == [] then map[]
    else
      var (name, key) := vars[|vars| - 1];
      var t := EnvTable(env, vars[..|vars| - 1]);
      if Sets(env, name) then t[key := String(env[name])] else t
  }

  function EnvValue(env: map<string, string>): Value {
    Table(EnvTable(env, ENV_VARS))
  }

  /** Each variable that is set and not empty gives its own key its own value. */
  lemma {:induction false} EnvTableAt(env: map<string, string>, vars: seq<(string, string)>, i: nat)
    requires i < |vars| && forall j, k :: 0 <= j < k < |vars| ==> vars[j].1 != vars[k].1
    ensures var (name, key) := vars[i];
      && (key in EnvTable(env, vars) <==> name in env && env[name] != "")
      && (key in EnvTable(env, vars) ==> EnvTable(env, vars)[key] == String(env[name]))
  {
    var front, last := vars[..|vars| - 1], vars[|vars| - 1];
    if i < |front| {
      EnvTableAt(env, front, i);
      assert front[i] == vars[i] && vars[i].1 != last.1;
    } else {
      forall k | 0 <= k < |front| ensures front[k].1 != last.1 {
        assert front[k] == vars[k];
      }
    }
  }

  /** The four variables and the keys they set. */
  lemma EnvExactly(env: map<string, string>, name: string, key: string)
    requires (name, key) == ("CRAB_MODEL", "model") || (name, key) == ("CRAB_API_PROVIDER", "api_provider") ||
             (name, key) == ("CRAB_DEFAULT_SHELL", "default_shell") || (name, key) == ("CRAB_BASE_URL", "base_url")
    ensures var entries := EnvValue(env).entries;
      && (key in entries <==> name in env && env[name] != "")
      && (key in entries ==> entries[key] == String(env[name]))
      && entries.Keys <= {"model", "api_provider", "default_shell", "base_url"}
  {
    var vars := ENV_VARS;
    assert |"model"| == 5 && |"api_provider"| == 12 && |"default_shell"| == 13 && |"base_url"| == 8;
    assert vars[0].1 == "model" && vars[1].1 == "api_provider";
    assert vars[2].1 == "default_shell" && vars[3].1 == "base_url";
    var i :=
      if key == "model" then 0 else if key == "api_provider" then 1 else if key == "default_shell" then 2 else 3;
    assert vars[i] == (name, key);
    EnvTableAt(env, vars, i);
  }

  method PutAll(env: map<string, string>, vars: seq<(string, string)>) returns (root: map<string, Value>)
    ensures root == EnvTable(env, vars)
  {
    root := map[];
    for i := 0 to |vars|
      invariant root == EnvTable(env, vars[..i])
    {
      var (name, key) := vars[i];
      assert vars[..i + 1][..i] == vars[..i];
      if name in env && env[name] != "" {
        root := root[key := String(env[name])];
      }
    }
    assert vars[..|vars|] == vars;
  }

  method EnvToValue(env: map<string, string>) returns (v: Value)
    ensures v == EnvValue(env)
  {
    var root := PutAll(env, ENV_VARS);
    v := Table(root);
  }

  // ----- overrides -----

  /** The key path and the raw value of an override, or why it is rejected. */
  function Override(spec: string): Result<(seq<string>, string)> {
    match SplitOnce(spec, '=')
    case None => Err("expected KEY.PATH=VALUE")
    case Some((before, raw)) =>
      var path := Trim(before);
      if path == "" then Err("empty key path")
      else if "" in Split(path, '.') then Err("empty segment in key path")
      else Ok((Split(path, '.'), raw))
  }

  /** The text is a dotted path of non-empty keys, perhaps with whitespace around it, then an
      equals sign, then the raw value. */
  ghost predicate IsOverride(spec: string, parts: seq<string>, raw: string) {
    exists before, after ::
      && AllWhitespace(before) && AllWhitespace(after) && IsTrimmed(Join(parts, '.'))
      && spec == (before + Join(parts, '.') + after) + ['='] + raw
      && IsKeyPath(parts)
  }

  ghost predicate IsKeyPath(parts: seq<string>) {
    && parts != []
    && (forall p :: p in parts ==> p != "" && !Contains(p, '.'))
    && !Contains(Join(parts, '.'), '=')
  }

  lemma JoinNotEmpty(parts: seq<string>, c: char)
    requires parts != [] && parts[0] != ""
    ensures Join(parts, c) != ""
  {
  }

  lemma {:induction false} OverrideReads(before: string, parts: seq<string>, after: string, raw: string)
    requires AllWhitespace(before) && AllWhitespace(after) && IsTrimmed(Join(parts, '.')) && IsKeyPath(parts)
    ensures Override((before + Join(parts, '.') + after) + ['='] + raw) == Ok((parts, raw))
  {
    var path := Join(parts, '.');
    var key := before + path + after;
    assert !Contains(key, '=') by {
      assert forall i :: 0 <= i < |before| ==> before[i] != '=';
      assert forall i :: 0 <= i < |after| ==> after[i] != '=';
      assert forall i :: 0 <= i < |path| ==> path[i] != '=';
    }
    SplitOnceFirst(key, raw, '=');
    assert parts[0] in parts;
    JoinNotEmpty(parts, '.');
    TrimAround(before, path, after);
    assert forall i :: 0 <= i < |parts| ==> parts[i] in parts;
    SplitJoin(parts, '.');
    assert "" !in parts;
  }

  /** An override is accepted, with these keys and this raw value, exactly when it has this
      form; everything else is rejected. */
  lemma {:induction false} OverrideExactly(spec: string, parts: seq<string>, raw: string)
    ensures Override(spec) == Ok((parts, raw)) <==> IsOverride(spec, parts, raw)
  {
    if IsOverride(spec, parts, raw) {
      var before, after :|
        && AllWhitespace(before) && AllWhitespace(after) && IsTrimmed(Join(parts, '.'))
        && spec == (before + Join(parts, '.') + after) + ['='] + raw
        && IsKeyPath(parts);
      OverrideReads(before, parts, after, raw);
    }
    if Override(spec) == Ok((parts, raw)) {
      SplitOnceNone(spec, '=');
      var key := SplitOnce(spec, '=').value.0;
      var before, after := TrimExactly(key);
      var path := Trim(key);
      JoinSplit(path, '.');
      assert Join(parts, '.') == path;
      assert !Contains(path, '=') by { TrimmedHasNo(before, path, after, '='); }
      assert spec == (before + Join(parts, '.') + after) + ['='] + raw;
      assert IsKeyPath(parts);
    }
  }

  lemma TrimmedHasNo(before: string, s: string, after: string, c: char)
    requires !Contains(before + s + after, c)
    ensures !Contains(s, c)
  {
    forall i | 0 <= i < |s| ensures s[i] != c {
      assert (before + s + after)[|before| + i] == s[i];
    }
  }

  /** `v` under one table for each key, outermost first. */
  function Nested(parts: seq<string>, v: Value): Value {
    if parts == [] then v else Table(map[parts[0] := Nested(parts[1..], v)])
  }

  method NestValue(parts: seq<string>, v: Value) returns (current: Value)
    ensures current == Nested(parts, v)
  {
    current := v;
    var i := |parts|;
    while i > 0
      invariant 0 <= i <= |parts|
      invariant current == Nested(parts[i..], v)
    {
      i := i - 1;
      assert parts[i..][1..] == parts[i + 1..];
      current := Table(map[parts[i] := current]);
    }
    assert parts[0..] == parts;
  }

  /** An override can be read back at its own path, and defines nothing off that path. */
  lemma {:induction false} NestedAt(parts: seq<string>, v: Value, path: seq<string>)
    ensures At(Nested(parts, v), path) ==
            if parts <= path then At(v, path[|parts|..])
            else if path <= parts then Some(Nested(parts[|path|..], v))
            else None
  {
    if parts == [] {
      assert path[0..] == path;
    } else if path != [] {
      if path[0] == parts[0] {
        NestedAt(parts[1..], v, path[1..]);
        assert parts <= path <==> parts[1..] <= path[1..] by {
          assert parts == [parts[0]] + parts[1..] && path == [path[0]] + path[1..];
        }
        assert path <= parts <==> path[1..] <= parts[1..] by {
          assert parts == [parts[0]] + parts[1..] && path == [path[0]] + path[1..];
        }
        if parts <= path {
          assert path[1..][|parts[1..]|..] == path[|parts|..];
        } else if path <= parts {
          assert parts[1..][|path[1..]|..] == parts[|path|..];
        }
      }
    } else {
      assert parts[0..] == parts;
    }
  }

  predicate AllAccepted(specs: seq<string>) {
    forall i :: 0 <= i < |specs| ==> Override(specs[i]).Ok?
  }

  function Nestings(specs: seq<string>, parse: string -> Value): seq<Value>
    requires AllAccepted(specs)
  {
    seq(|specs|, i requires 0 <= i < |specs| =>
      Nested(Override(specs[i]).value.0, parse(Override(specs[i]).value.1)))
  }

  lemma FoldedNestingsSnoc(specs: seq<string>, i: nat, parse: string -> Value)
    requires i < |specs| && AllAccepted(specs[..i]) && Override(specs[i]).Ok?
    ensures AllAccepted(specs[..i + 1])
    ensures var (parts, raw) := Override(specs[i]).value;
            Folded([EMPTY_TABLE] + Nestings(specs[..i + 1], parse)) ==
            Merged(Folded([EMPTY_TABLE] + Nestings(specs[..i], parse)), Nested(parts, parse(raw)))
  {
    var (parts, raw) := Override(specs[i]).value;
    var low := [EMPTY_TABLE] + Nestings(specs[..i], parse);
    assert AllAccepted(specs[..i + 1]) by {
      forall j | 0 <= j < i ensures Override(specs[j]).Ok? {
        assert specs[..i][j] == specs[j];
      }
    }
    assert [EMPTY_TABLE] + Nestings(specs[..i + 1], parse) == low + [Nested(parts, parse(raw))];
    FoldedSnoc(low, Nested(parts, parse(raw)));
  }

  /** Overrides are merged in order into one table; the first malformed one is the error. */
  method CliOverridesToValue(specs: seq<string>, parse: string -> Value) returns (r: Result<Value>)
    ensures r.Ok? <==> AllAccepted(specs)
    ensures r.Ok? ==> r.value == Folded([EMPTY_TABLE] + Nestings(specs, parse))
    ensures r.Err? ==> exists i :: 0 <= i < |specs| && AllAccepted(specs[..i]) &&
                         Override(specs[i]) == Err(r.message)
  {
    var root := EMPTY_TABLE;
    for i := 0 to |specs|
      invariant AllAccepted(specs[..i])
      invariant root == Folded([EMPTY_TABLE] + Nestings(specs[..i], parse))
    {
      match Override(specs[i]) {
        case Err(message) => return Err(message);
        case Ok((parts, raw)) =>
          var nested := NestValue(parts, parse(raw));
          root := MergeTomlValues(root, nested);
          FoldedNestingsSnoc(specs, i, parse);
      }
    }
    assert specs[..|specs|] == specs;
    r := Ok(root);
  }

  lemma {:induction false} MergedNestedAt(base: Value, parts: seq<string>, v: Value)
    requires !IsContainer(v)
    ensures At(Merged(base, Nested(parts, v)), parts) == Some(v)
    decreases |parts|
  {
    if parts != [] {
      var nested := Nested(parts, v);
      var key, inner := parts[0], Nested(parts[1..], v);
      assert nested == Table(map[key := inner]);
      if base.Table? && key in base.entries {
        MergedNestedAt(base.entries[key], parts[1..], v);
      } else {
        NestedAt(parts[1..], v, parts[1..]);
        assert parts[1..][|parts[1..]|..] == [];
      }
    }
  }

  /** The last override of a path wins, whatever came before. */
  lemma LastOverrideWins(specs: seq<string>, spec: string, parts: seq<string>, raw: string,
                         parse: string -> Value)
    requires AllAccepted(specs) && IsOverride(spec, parts, raw) && !IsContainer(parse(raw))
    ensures AllAccepted(specs + [spec])
    ensures At(Folded([EMPTY_TABLE] + Nestings(specs + [spec], parse)), parts) == Some(parse(raw))
  {
    OverrideExactly(spec, parts, raw);
    var all, n := specs + [spec], |specs|;
    assert all[..n] == specs && all[..n + 1] == all;
    FoldedNestingsSnoc(all, n, parse);
    MergedNestedAt(Folded([EMPTY_TABLE] + Nestings(specs, parse)), parts, parse(raw));
  }

  lemma NestingsAreTables(specs: seq<string>, parse: string -> Value)
    requires AllAccepted(specs)
    ensures forall u :: u in Nestings(specs, parse) ==> u.Table?
  {
  }

  // ----- the runtime tree -----

  /** What `resolve` merges over the file layers. */
  function RuntimeTree(env: map<string, string>, overrides: seq<Value>): Value {
    Merged(Merged(EMPTY_TABLE, EnvValue(env)), Folded([EMPTY_TABLE] + overrides))
  }

  lemma MergeEmptyTable(v: Value)
    requires v.Table?
    ensures Merged(EMPTY_TABLE, v) == v && Merged(v, EMPTY_TABLE) == v
  {
    assert Merged(EMPTY_TABLE, v).entries == v.entries;
    assert Merged(v, EMPTY_TABLE).entries == v.entries;
  }

  /** Only the fold of the first layers matters to what is folded on top of them. */
  lemma {:induction false} FoldedFrom(low: seq<Value>, upper: seq<Value>)
    requires low != []
    ensures Folded(low + upper) == Folded([Folded(low)] + upper)
  {
    if upper == [] {
      assert low + upper == low && [Folded(low)] + upper == [Folded(low)];
    } else {
      var front, last := upper[..|upper| - 1], upper[|upper| - 1];
      FoldedFrom(low, front);
      assert low + upper == (low + front) + [last];
      assert [Folded(low)] + upper == ([Folded(low)] + front) + [last];
      FoldedSnoc(low + front, last);
      FoldedSnoc([Folded(low)] + front, last);
    }
  }

  lemma EnvLosesNothing(env: map<string, string>, upper: seq<Value>)
    requires forall u :: u in upper ==> u.Table?
    ensures PrefoldSafe(EnvValue(env), upper)
  {
    var e := EnvValue(env);
    forall k | k in e.entries ensures PrefoldSafe(e.entries[k], Children(upper, k)) {
      assert e.entries[k].String?;
    }
  }

  /** The runtime tree itself is always the layer-by-layer fold: the environment sets only
      strings, which have nothing to lose to an override. */
  lemma RuntimeTreeIsFold(env: map<string, string>, overrides: seq<Value>)
    requires forall u :: u in overrides ==> u.Table?
    ensures RuntimeTree(env, overrides) == Folded([EnvValue(env)] + overrides)
  {
    var e, upper := EnvValue(env), [EMPTY_TABLE] + overrides;
    MergeEmptyTable(e);
    EnvLosesNothing(env, upper);
    PrefoldExactly(e, upper);
    SkipEmptyTable(e, overrides);
  }

  lemma SkipEmptyTable(v: Value, upper: seq<Value>)
    requires v.Table?
    ensures Folded([v] + ([EMPTY_TABLE] + upper)) == Folded([v] + upper)
  {
    assert [v] + ([EMPTY_TABLE] + upper) == ([v] + [EMPTY_TABLE]) + upper;
    FoldedFrom([v] + [EMPTY_TABLE], upper);
    FoldedSnoc([v], EMPTY_TABLE);
    MergeEmptyTable(v);
  }

  /** Merging the runtime tree over the file layers gives what merging the environment and
      then each override would give, exactly when no override or environment value cuts off
      a table or array of the file layers that a later override brings back. */
  lemma RuntimePrefoldExactly(base: Value, env: map<string, string>, overrides: seq<Value>)
    requires forall u :: u in overrides ==> u.Table?
    ensures Merged(base, RuntimeTree(env, overrides)) == Folded([base] + ([EnvValue(env)] + overrides))
            <==> PrefoldSafe(base, [EnvValue(env)] + overrides)
  {
    RuntimeTreeIsFold(env, overrides);
    PrefoldExactly(base, [EnvValue(env)] + overrides);
  }

  /** The two differ when the files hold a table at a key the environment sets, and an
      override sets another entry of that table. */
  lemma RuntimePrefoldDiffers(env: map<string, string>, key: string, a: string, b: string,
                              v: Value, w: Value)
    requires key in EnvValue(env).entries && a != b
    ensures var base, override := Nested([key, a], v), Nested([key, b], w);
            Merged(base, RuntimeTree(env, [override])) !=
            Folded([base] + ([EnvValue(env)] + [override]))
  {
    var base, override := Nested([key, a], v), Nested([key, b], w);
    NestedTwice(key, a, v);
    NestedTwice(key, b, w);
    assert a in Nested([a], v).entries && a !in Nested([b], w).entries;
    HiddenInTable(EnvValue(env), key, Nested([a], v), Nested([b], w));
    RuntimePrefoldExactly(base, env, [override]);
  }

  lemma NestedTwice(key: string, a: string, v: Value)
    ensures Nested([key, a], v) == Table(map[key := Nested([a], v)])
    ensures Nested([a], v) == Table(map[a := v])
  {
    assert [key, a][1..] == [a];
  }

  lemma HiddenInTable(e: Value, key: string, lower: Value, upper: Value)
    requires e.Table? && key in e.entries && e.entries[key].String?
    requires lower.Table? && upper.Table?
    requires exists k :: k in lower.entries && k !in upper.entries
    ensures !PrefoldSafe(Table(map[key := lower]), [e] + [Table(map[key := upper])])
  {
    var base, override := Table(map[key := lower]), Table(map[key := upper]);
    var s := [e] + [override];
    HiddenByString(lower, e.entries[key], upper);
    ChildrenCons(e, [override], key);
    ChildrenSnoc([], override, key);
    assert [] + [override] == [override];
    assert Children(s, key) == [e.entries[key]] + [upper];
    FoldedKind(s);
    assert forall u :: u in s ==> SameContainer(base, u);
    assert base.entries[key] == lower;
  }

  lemma HiddenByString(lower: Value, middle: Value, upper: Value)
    requires lower.Table? && upper.Table? && middle.String?
    requires exists k :: k in lower.entries && k !in upper.entries
    ensures !PrefoldSafe(lower, [middle] + [upper])
  {
    var cs := [middle] + [upper];
    FoldedSnoc([middle], upper);
    assert Folded(cs) == upper;
    assert cs[0] in cs;
    assert !Absorbed(lower, upper);
  }
}
