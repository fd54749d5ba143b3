/** JSON Pointers (RFC 6901) as the schema validator writes them, and the order in which
    `resolve` sorts them (crates/config/src/loader.rs, crates/config/src/validation.rs). */
module Pointers {
  import opened Values
  import opened Text

  /** A location: the keys and indices from the root down, unescaped. */
  type Path = seq<string>

  // ----- escaping, section 3 and 4 of RFC 6901 -----

  function EscapeOne(c: char): string {
    if c == '~' then "~0" else if c == '/' then "~1" else [c]
  }

  function Escape(key: string): string {
    if key == "" then "" else EscapeOne(key[0]) + Escape(key[1..])
  }

  /** Every occurrence of the two characters `a`, `b` replaced by `c`, left to right. */
  function Replace(s: string, a: char, b: char, c: char): string {
    if s == "" then ""
    else if |s| >= 2 && s[0] == a && s[1] == b then [c] + Replace(s[2..], a, b, c)
    else [s[0]] + Replace(s[1..], a, b, c)
  }

  function Decode(segment: string): string {
    Replace(Replace(segment, '~', '1', '/'), '~', '0', '~')
  }

  function EscapeTilde(key: string): string {
    if key == "" then ""
    else (if key[0] == '~' then "~0" else [key[0]]) + EscapeTilde(key[1..])
  }

  lemma DecodeSlash(c: char, rest: string)
    ensures Replace(EscapeOne(c) + rest, '~', '1', '/') ==
            (if c == '~' then "~0" else [c]) + Replace(rest, '~', '1', '/')
  {
    var s := EscapeOne(c) + rest;
    if c == '~' {
      assert s[1..] == "0" + rest && ("0" + rest)[1..] == rest;
    } else if c == '/' {
      assert s[2..] == rest;
    } else {
      assert s[1..] == rest;
    }
  }

  lemma {:induction false} DecodeSlashes(key: string)
    ensures Replace(Escape(key), '~', '1', '/') == EscapeTilde(key)
  {
    if key != "" {
      DecodeSlash(key[0], Escape(key[1..]));
      DecodeSlashes(key[1..]);
    }
  }

  lemma {:induction false} DecodeTildes(key: string)
    ensures Replace(EscapeTilde(key), '~', '0', '~') == key
  {
    if key != "" {
      DecodeTildes(key[1..]);
      var rest := EscapeTilde(key[1..]);
      assert key == [key[0]] + key[1..];
      if key[0] == '~' {
        assert EscapeTilde(key) == "~0" + rest && EscapeTilde(key)[2..] == rest;
      } else {
        assert EscapeTilde(key)[1..] == rest;
      }
    }
  }

  /** Decoding in two passes, slashes first, inverts escaping. */
  lemma DecodeEscape(key: string)
    ensures Decode(Escape(key)) == key
  {
    DecodeSlashes(key);
    DecodeTildes(key);
  }

  lemma {:induction false} EscapeHasNoSlash(key: string)
    ensures !Contains(Escape(key), '/')
  {
    if key != "" {
      EscapeHasNoSlash(key[1..]);
      var head := EscapeOne(key[0]);
      assert Escape(key) == head + Escape(key[1..]);
    }
  }

  /** Numbers contain nothing to escape. */
  lemma {:induction false} EscapeUnchanged(key: string)
    requires !Contains(key, '~') && !Contains(key, '/')
    ensures Escape(key) == key
  {
    if key != "" {
      assert !Contains(key[1..], '~') && !Contains(key[1..], '/');
      EscapeUnchanged(key[1..]);
      assert key[0] != '~' && key[0] != '/';
      assert key == [key[0]] + key[1..];
    }
  }

  lemma NumberUnescaped(key: string)
    requires ParseUnsigned(key).Some?
    ensures Escape(key) == key
  {
    var digits := if key[0] == '+' then key[1..] else key;
    forall i | 0 <= i < |key| ensures key[i] != '~' && key[i] != '/' {
      if i > 0 || key[0] != '+' {
        assert key[i] == digits[if key[0] == '+' then i - 1 else i];
      }
    }
    EscapeUnchanged(key);
  }

  /** Escaped segments parse as the keys they stand for. */
  lemma {:induction false} ParseEscaped(key: string)
    ensures ParseUnsigned(Escape(key)) == ParseUnsigned(key)
  {
    if ParseUnsigned(key).Some? {
      NumberUnescaped(key);
    } else if Contains(key, '~') || Contains(key, '/') {
      EscapeKeepsTilde(key);
      var e := Escape(key);
      var i :| 0 <= i < |e| && e[i] == '~';
      var digits := if e[0] == '+' then e[1..] else e;
      assert digits[if e[0] == '+' then i - 1 else i] == '~';
    } else {
      EscapeUnchanged(key);
    }
  }

  lemma {:induction false} EscapeKeepsTilde(key: string)
    requires Contains(key, '~') || Contains(key, '/')
    ensures Contains(Escape(key), '~')
  {
    var head := EscapeOne(key[0]);
    assert Escape(key) == head + Escape(key[1..]);
    if key[0] == '~' || key[0] == '/' {
      assert Escape(key)[0] == '~';
    } else {
      assert key == [key[0]] + key[1..];
      EscapeKeepsTilde(key[1..]);
      var i :| 0 <= i < |Escape(key[1..])| && Escape(key[1..])[i] == '~';
      assert Escape(key)[i + 1] == '~';
    }
  }

  // ----- rendering and reading pointers -----

  function EscapeAll(path: Path): (r: seq<string>)
    ensures |r| == |path|
    ensures forall i :: 0 <= i < |path| ==> r[i] == Escape(path[i])
  {
    seq(|path|, i requires 0 <= i < |path| => Escape(path[i]))
  }

  /** The pointer to a location: each key escaped and preceded by a slash. */
  function Pointer(path: Path): string {
    if path == [] then "" else Join([""] + EscapeAll(path), '/')
  }

  /** The segments a prune walks; none for the whole document. The pointer "/" means the
      empty key in RFC 6901, but is treated as the whole document too. */
  function Segments(pointer: string): (path: Option<Path>)
    ensures path.Some? ==> path.value != []
  {
    if pointer == "" || pointer == "/" then None
    else
      var raw := Split(if pointer[0] == '/' then pointer[1..] else pointer, '/');
      Some(seq(|raw|, i requires 0 <= i < |raw| => Decode(raw[i])))
  }

  /** The locations a prune acts on. */
  predicate Prunable(path: Path) {
    path != [] && path != [""]
  }

  lemma PointerSplit(path: Path)
    requires path != []
    ensures Pointer(path) == "/" + Join(EscapeAll(path), '/')
    ensures Split(Pointer(path), '/') == [""] + EscapeAll(path)
    ensures Split(Pointer(path)[1..], '/') == EscapeAll(path)
  {
    var es := EscapeAll(path);
    forall i | 0 <= i < |es| ensures !Contains(es[i], '/') {
      EscapeHasNoSlash(path[i]);
    }
    SplitJoin(es, '/');
    assert ([""] + es)[1..] == es;
    assert [""] + es != [] && |[""] + es| > 1;
    assert Join([""] + es, '/') == "" + ['/'] + Join(es, '/');
    assert Pointer(path)[1..] == Join(es, '/');
    SplitFirst("", Join(es, '/'), '/');
  }

  /** Reading a rendered pointer gives the location back. */
  lemma PointerRoundTrip(path: Path)
    ensures Segments(Pointer(path)) == if Prunable(path) then Some(path) else None
  {
    if path != [] {
      PointerSplit(path);
      var es := EscapeAll(path);
      if Pointer(path) == "/" {
        assert Split("", '/') == [""];
        assert |path| == 1 && es[0] == "";
        assert path[0] == "" by { DecodeEscape(path[0]); }
        assert path == [""];
      } else {
        assert path == [""] ==> Join(es, '/') == "" by { assert Escape("") == ""; }
        forall i | 0 <= i < |es| ensures Decode(es[i]) == path[i] {
          DecodeEscape(path[i]);
        }
        assert Segments(Pointer(path)).value == path;
      }
    }
  }

  /** The slash in front may be missing. */
  lemma SlashOptional(pointer: string)
    requires pointer != "" && pointer[0] != '/'
    ensures Segments(pointer) == Segments("/" + pointer)
  {
    assert ("/" + pointer)[1..] == pointer;
  }

  /** The escapes of section 4 of RFC 6901; a tilde that was escaped is not read again. */
  lemma DecodeEscapes()
    ensures Decode("~1") == "/" && Decode("~0") == "~" && Decode("~01") == "~1"
  {
    assert Escape("/") == "~1" && Escape("~") == "~0";
    DecodeEscape("/");
    DecodeEscape("~");
    assert Escape("~1") == "~0" + Escape("~1"[1..]) && Escape("1") == "1";
    DecodeEscape("~1");
  }

  // ----- the order of pointers -----

  /** Two numbers compare as numbers, anything else as text. */
  function CompareSegments(x: string, y: string): Ordering {
    match (ParseUnsigned(x), ParseUnsigned(y))
    case (Some(m), Some(n)) => CompareNat(m, n)
    case _ => CompareText(x, y)
  }

  function ComparePaths(p: seq<string>, q: seq<string>): Ordering {
    if p == [] then (if q == [] then Equal else Less)
    else if q == [] then Greater
    else
      var o := CompareSegments(p[0], q[0]);
      if o == Equal then ComparePaths(p[1..], q[1..]) else o
  }

  /** The comparison by two iterators advancing together. */
  method FieldPathCmp(a: string, b: string) returns (o: Ordering)
    ensures o == ComparePaths(Split(a, '/'), Split(b, '/'))
  {
    var sa, sb := Split(a, '/'), Split(b, '/');
    var i := 0;
    while true
      invariant 0 <= i <= |sa| && i <= |sb|
      invariant ComparePaths(sa, sb) == ComparePaths(sa[i..], sb[i..])
      decreases |sa| - i
    {
      if i < |sa| && i < |sb| {
        var x, y := sa[i], sb[i];
        var mx, my := ParseUnsigned(x), ParseUnsigned(y);
        var ord := if mx.Some? && my.Some? then CompareNat(mx.value, my.value) else CompareText(x, y);
        if ord != Equal {
          return ord;
        }
      } else if i < |sa| {
        return Greater;
      } else if i < |sb| {
        return Less;
      } else {
        return Equal;
      }
      assert sa[i..][1..] == sa[i + 1..] && sb[i..][1..] == sb[i + 1..];
      i := i + 1;
    }
  }

  lemma CompareSegmentsReversed(x: string, y: string)
    ensures CompareSegments(y, x) == Reversed(CompareSegments(x, y))
    ensures CompareSegments(x, x) == Equal
  {
    CompareTextReversed(x, y);
    CompareTextEqual(x, x);
  }

  lemma {:induction false} ComparePathsReversed(p: seq<string>, q: seq<string>)
    ensures ComparePaths(q, p) == Reversed(ComparePaths(p, q))
  {
    if p != [] && q != [] {
      CompareSegmentsReversed(p[0], q[0]);
      ComparePathsReversed(p[1..], q[1..]);
    }
  }

  /** Segments that name the same place in any tree. */
  predicate SameSegment(x: string, y: string) {
    x == y || (ParseUnsigned(x).Some? && ParseUnsigned(x) == ParseUnsigned(y))
  }

  predicate SameLocation(p: Path, q: Path) {
    |p| == |q| && forall i :: 0 <= i < |p| ==> SameSegment(p[i], q[i])
  }

  /** The comparison calls exactly the same-location pairs equal. */
  lemma {:induction false} ComparePathsEqual(p: seq<string>, q: seq<string>)
    ensures ComparePaths(p, q) == Equal <==> SameLocation(p, q)
  {
    if p != [] && q != [] {
      CompareTextEqual(p[0], q[0]);
      ComparePathsEqual(p[1..], q[1..]);
      assert CompareSegments(p[0], q[0]) == Equal <==> SameSegment(p[0], q[0]);
      assert SameLocation(p, q) <==> SameSegment(p[0], q[0]) && SameLocation(p[1..], q[1..]) by {
        assert forall i :: 1 <= i < |p| && i < |q| ==> p[i] == p[1..][i - 1] && q[i] == q[1..][i - 1];
        if SameSegment(p[0], q[0]) && SameLocation(p[1..], q[1..]) {
          forall i | 0 <= i < |p| ensures SameSegment(p[i], q[i]) {
            assert i > 0 ==> SameSegment(p[1..][i - 1], q[1..][i - 1]);
          }
        }
        if SameLocation(p, q) {
          forall i | 0 <= i < |p[1..]| ensures SameSegment(p[1..][i], q[1..][i]) {
            assert SameSegment(p[i + 1], q[i + 1]);
          }
        }
      }
    }
  }

  // ----- where the order is transitive -----

  predicate IsNumber(x: string) {
    ParseUnsigned(x).Some?
  }

  /** A non-number that lies between two numbers as text, against their order as numbers:
      `x <= y` as numbers, but `y < z < x` as text. */
  predicate Straddles(z: string, x: string, y: string) {
    && IsNumber(x) && IsNumber(y) && !IsNumber(z)
    && ParseUnsigned(x).value <= ParseUnsigned(y).value
    && CompareText(y, z) == Less && CompareText(z, x) == Less
  }

  ghost predicate TransitiveOn(s: set<string>) {
    forall x, y, z ::
      x in s && y in s && z in s && CompareSegments(x, y) != Greater && CompareSegments(y, z) != Greater
      ==> CompareSegments(x, z) != Greater
  }

  ghost predicate NoStraddle(s: set<string>) {
    forall x, y, z :: x in s && y in s && z in s ==> !Straddles(z, x, y)
  }

  lemma SegmentTransitive(x: string, y: string, z: string)
    requires CompareSegments(x, y) != Greater && CompareSegments(y, z) != Greater
    requires !Straddles(z, x, y) && !Straddles(y, z, x) && !Straddles(x, y, z)
    ensures CompareSegments(x, z) != Greater
  {
    CompareTextReversed(x, z);
    CompareTextEqual(x, y);
    CompareTextEqual(y, z);
    if CompareText(x, y) != Greater && CompareText(y, z) != Greater {
      CompareTextTransitive(x, y, z);
    }
  }

  /** The segment order is transitive on a set of siblings exactly when none of them
      straddles two others; in particular when all are numbers or none is. */
  lemma TransitiveExactly(s: set<string>)
    ensures TransitiveOn(s) <==> NoStraddle(s)
    ensures (forall x :: x in s ==> IsNumber(x)) || (forall x :: x in s ==> !IsNumber(x)) ==> NoStraddle(s)
  {
    if NoStraddle(s) {
      forall x, y, z | x in s && y in s && z in s &&
        CompareSegments(x, y) != Greater && CompareSegments(y, z) != Greater
        ensures CompareSegments(x, z) != Greater
      {
        SegmentTransitive(x, y, z);
      }
    } else {
      var x, y, z :| x in s && y in s && z in s && Straddles(z, x, y);
      CompareTextReversed(z, x);
      assert CompareSegments(x, y) != Greater && CompareSegments(y, z) != Greater;
      assert CompareSegments(x, z) == Greater;
    }
  }

  /** `9 < 10 < 1a < 9`. */
  lemma MixedSiblingsCycle()
    ensures CompareSegments("9", "10") == Less
    ensures CompareSegments("10", "1a") == Less
    ensures CompareSegments("1a", "9") == Less
    ensures !TransitiveOn({"9", "10", "1a"})
  {
    assert DecimalValue("9"[..0]) == 0 && DecimalValue("10"[..1][..0]) == 0;
    assert DecimalValue("9") == 9;
    assert DecimalValue("10"[..1]) == 1;
    assert DecimalValue("10") == 10;
    assert ParseUnsigned("9") == Some(9) && ParseUnsigned("10") == Some(10);
    assert !IsDigit("1a"[1]);
    assert ParseUnsigned("1a") == None;
    assert CompareText("10"[1..], "1a"[1..]) == Less;
    CompareSegmentsReversed("9", "1a");
  }

  /** No straddling among the segments at the first place the three paths can differ, and so
      on down. */
  predicate Coherent(p: seq<string>, q: seq<string>, r: seq<string>) {
    p != [] && q != [] && r != [] ==>
      && NoStraddleAmong(p[0], q[0], r[0])
      && (CompareSegments(p[0], q[0]) == Equal && CompareSegments(q[0], r[0]) == Equal ==>
            Coherent(p[1..], q[1..], r[1..]))
  }

  predicate NoStraddleAmong(x: string, y: string, z: string) {
    && !Straddles(z, x, y) && !Straddles(z, y, x)
    && !Straddles(y, x, z) && !Straddles(y, z, x)
    && !Straddles(x, y, z) && !Straddles(x, z, y)
  }

  /** A total preorder wherever siblings do not straddle each other. */
  lemma {:induction false} ComparePathsTransitive(p: seq<string>, q: seq<string>, r: seq<string>)
    requires Coherent(p, q, r)
    requires ComparePaths(p, q) != Greater && ComparePaths(q, r) != Greater
    ensures ComparePaths(p, r) != Greater
  {
    if p != [] && q != [] && r != [] {
      SegmentTransitive(p[0], q[0], r[0]);
      CompareSegmentsReversed(p[0], q[0]);
      CompareSegmentsReversed(q[0], r[0]);
      CompareSegmentsReversed(p[0], r[0]);
      if CompareSegments(p[0], r[0]) == Equal {
        SegmentTransitive(r[0], p[0], q[0]);
        SegmentTransitive(q[0], r[0], p[0]);
        ComparePathsTransitive(p[1..], q[1..], r[1..]);
      }
    }
  }

  /** Wherever two paths can first differ, their segments are both numbers or both not. */
  predicate Uniform(p: seq<string>, q: seq<string>) {
    p != [] && q != [] ==>
      && (IsNumber(p[0]) <==> IsNumber(q[0]))
      && (CompareSegments(p[0], q[0]) == Equal ==> Uniform(p[1..], q[1..]))
  }

  /** Siblings that are all numbers or all not do not straddle each other. */
  lemma {:induction false} UniformIsCoherent(p: seq<string>, q: seq<string>, r: seq<string>)
    requires Uniform(p, q) && Uniform(q, r)
    ensures Coherent(p, q, r)
  {
    if p != [] && q != [] && r != [] {
      if CompareSegments(p[0], q[0]) == Equal && CompareSegments(q[0], r[0]) == Equal {
        UniformIsCoherent(p[1..], q[1..], r[1..]);
      }
    }
  }

  /** A path comes after each of its proper prefixes. */
  lemma {:induction false} PrefixIsLess(p: seq<string>, q: seq<string>)
    requires p <= q && p != q
    ensures ComparePaths(p, q) == Less
  {
    if p != [] {
      CompareSegmentsReversed(p[0], q[0]);
      assert p[1..] <= q[1..];
      assert p == [p[0]] + p[1..] && q == [q[0]] + q[1..];
      PrefixIsLess(p[1..], q[1..]);
    }
  }

  /** Below the same parent, a higher index comes after a lower one, whatever follows. */
  lemma {:induction false} IndicesNumerically(parent: seq<string>, i: string, j: string,
                                              p: seq<string>, q: seq<string>)
    requires IsNumber(i) && IsNumber(j) && ParseUnsigned(i).value < ParseUnsigned(j).value
    ensures ComparePaths(parent + [i] + p, parent + [j] + q) == Less
  {
    var l, r := parent + [i] + p, parent + [j] + q;
    if parent != [] {
      IndicesNumerically(parent[1..], i, j, p, q);
      assert l[1..] == parent[1..] + [i] + p && r[1..] == parent[1..] + [j] + q;
      CompareSegmentsReversed(parent[0], parent[0]);
    }
  }
}
