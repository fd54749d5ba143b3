/** The string operations the modelled code relies on: splitting, joining, replacing,
    comparing and parsing. Strings are sequences of Unicode scalar values. */
module Text {
  import opened Values

  lemma Regroup(a: string, b: string, c: string)
    ensures (a + b) + c == a + (b + c)
  {
  }

  // ----- split and join -----

  predicate Contains(s: string, c: char) {
    exists i :: 0 <= i < |s| && s[i] == c
  }

  /** The pieces of `s` between occurrences of `c`; the empty string is one empty piece. */
  function Split(s: string, c: char): (pieces: seq<string>)
    ensures pieces != []
  {
    if s == "" then [""]
    else
      var rest := Split(s[1..], c);
      if s[0] == c then [""] + rest else [[s[0]] + rest[0]] + rest[1..]
  }

  function Join(pieces: seq<string>, c: char): string {
    if pieces == [] then ""
    else if |pieces| == 1 then pieces[0]
    else pieces[0] + [c] + Join(pieces[1..], c)
  }

  lemma {:induction false} JoinSplit(s: string, c: char)
    ensures Join(Split(s, c), c) == s
    ensures forall i :: 0 <= i < |Split(s, c)| ==> !Contains(Split(s, c)[i], c)
  {
    if s != "" {
      JoinSplit(s[1..], c);
      var rest := Split(s[1..], c);
      if s[0] == c {
        assert Split(s, c)[1..] == rest;
      } else {
        assert Split(s, c)[1..] == rest[1..];
        assert !Contains(rest[0], c);
      }
    }
  }

  /** Splitting a piece without the separator off the front. */
  lemma {:induction false} SplitFirst(piece: string, rest: string, c: char)
    requires !Contains(piece, c)
    ensures Split(piece, c) == [piece]
    ensures Split(piece + [c] + rest, c) == [piece] + Split(rest, c)
  {
    var s := piece + [c] + rest;
    if piece == "" {
      assert s[0] == c && s[1..] == rest;
    } else {
      assert piece[0] != c;
      assert !Contains(piece[1..], c);
      SplitFirst(piece[1..], rest, c);
      assert s[1..] == piece[1..] + [c] + rest;
      assert [piece[0]] + piece[1..] == piece;
      assert ([piece[1..]] + Split(rest, c))[1..] == Split(rest, c);
    }
  }

  lemma {:induction false} SplitJoin(pieces: seq<string>, c: char)
    requires pieces != []
    requires forall i :: 0 <= i < |pieces| ==> !Contains(pieces[i], c)
    ensures Split(Join(pieces, c), c) == pieces
  {
    if |pieces| == 1 {
      SplitFirst(pieces[0], "", c);
    } else {
      SplitJoin(pieces[1..], c);
      SplitFirst(pieces[0], Join(pieces[1..], c), c);
    }
  }

  /** Everything before and after the first `c`. */
  function SplitOnce(s: string, c: char): Option<(string, string)> {
    if s == "" then None
    else if s[0] == c then Some(("", s[1..]))
    else
      match SplitOnce(s[1..], c)
      case None => None
      case Some((before, after)) => Some(([s[0]] + before, after))
  }

  lemma {:induction false} SplitOnceFirst(before: string, after: string, c: char)
    requires !Contains(before, c)
    ensures SplitOnce(before + [c] + after, c) == Some((before, after))
  {
    var s := before + [c] + after;
    if before == "" {
      assert s[0] == c && s[1..] == after;
    } else {
      assert before[0] != c;
      assert !Contains(before[1..], c);
      assert s[1..] == before[1..] + [c] + after;
      SplitOnceFirst(before[1..], after, c);
      assert [before[0]] + before[1..] == before;
    }
  }

  // ----- whitespace -----

  /** The characters with the Unicode property White_Space. */
  predicate IsWhitespace(c: char) {
    || '\t' <= c <= '\r' || c == ' ' || c == '\U{85}' || c == '\U{A0}' || c == '\U{1680}'
    || '\U{2000}' <= c <= '\U{200A}' || c == '\U{2028}' || c == '\U{2029}' || c == '\U{202F}'
    || c == '\U{205F}' || c == '\U{3000}'
  }

  function Trim(s: string): string {
    if s != "" && IsWhitespace(s[0]) then Trim(s[1..])
    else if s != "" && IsWhitespace(s[|s| - 1]) then Trim(s[..|s| - 1])
    else s
  }

  // ----- unsigned decimal numbers -----

  predicate IsDigit(c: char) {
    '0' <= c <= '9'
  }

  predicate AllDigits(s: string) {
    forall i :: 0 <= i < |s| ==> IsDigit(s[i])
  }

  function DecimalValue(s: string): nat
    requires AllDigits(s)
  {
    if s == "" then 0
    else 10 * DecimalValue(s[..|s| - 1]) + (s[|s| - 1] as int - '0' as int)
  }

  function Digit(n: nat): char
    requires n < 10
  {
    '0' + n as char
  }

  /** The decimal numeral, by repeated division by ten. */
  function Digits(n: nat): string {
    if n < 10 then [Digit(n)] else Digits(n / 10) + [Digit(n % 10)]
  }

  function Zeros(n: nat): string {
    if n == 0 then "" else "0" + Zeros(n - 1)
  }

  /** A numeral reads back as its number. */
  lemma {:induction false} DigitsRead(n: nat)
    ensures Digits(n) != "" && AllDigits(Digits(n)) && DecimalValue(Digits(n)) == n
  {
    if n < 10 {
      assert Digits(n)[..0] == "";
    } else {
      DigitsRead(n / 10);
      assert Digits(n)[..|Digits(n)| - 1] == Digits(n / 10);
    }
  }

  /** Every string of digits is the numeral of its value behind some zeros. */
  lemma {:induction false} DigitsExactly(s: string) returns (zeros: nat)
    requires s != "" && AllDigits(s)
    ensures s == Zeros(zeros) + Digits(DecimalValue(s))
  {
    var front, last := s[..|s| - 1], s[|s| - 1] as int - '0' as int;
    assert s == front + [Digit(last)];
    if front == "" {
      zeros := 0;
      assert Zeros(0) + Digits(last) == Digits(last);
    } else {
      zeros := DigitsExactly(front);
      assert DecimalValue(s) == 10 * DecimalValue(front) + last;
      zeros := DigitSnoc(zeros, DecimalValue(front), last);
    }
  }

  /** One more digit behind a numeral; behind a zero, that becomes one more leading zero. */
  lemma DigitSnoc(zeros: nat, m: nat, last: nat) returns (zeros': nat)
    requires last < 10
    ensures (Zeros(zeros) + Digits(m)) + [Digit(last)] == Zeros(zeros') + Digits(10 * m + last)
  {
    if m == 0 {
      ZerosSnoc(zeros);
      zeros' := zeros + 1;
    } else {
      assert Digits(10 * m + last) == Digits(m) + [Digit(last)];
      Regroup(Zeros(zeros), Digits(m), [Digit(last)]);
      zeros' := zeros;
    }
  }

  lemma {:induction false} ZerosSnoc(n: nat)
    ensures Zeros(n) + "0" == Zeros(n + 1)
  {
    if n > 0 {
      ZerosSnoc(n - 1);
    }
  }

  /** Parsing a `u64` (or a 64-bit `usize`): an optional plus sign, then at least one digit,
      and no overflow. */
  function ParseUnsigned(s: string): Option<nat> {
    var digits := if s != "" && s[0] == '+' then s[1..] else s;
    if digits != "" && AllDigits(digits) && DecimalValue(digits) <= U64_MAX
    then Some(DecimalValue(digits))
    else None
  }

  /** Numerals up to the largest `u64` parse as their numbers, and larger ones do not. */
  lemma ParseDigits(n: nat)
    ensures ParseUnsigned(Digits(n)) == if n <= U64_MAX then Some(n) else None
    ensures ParseUnsigned(['+'] + Digits(n)) == ParseUnsigned(Digits(n))
  {
    DigitsRead(n);
    assert IsDigit(Digits(n)[0]);
    assert (['+'] + Digits(n))[1..] == Digits(n);
  }

  /** What parses is a numeral, possibly behind a plus sign and zeros. */
  lemma ParseExactly(s: string) returns (sign: string, zeros: nat)
    requires ParseUnsigned(s).Some?
    ensures sign == "" || sign == "+"
    ensures s == sign + Zeros(zeros) + Digits(ParseUnsigned(s).value)
  {
    sign := if s[0] == '+' then "+" else "";
    var digits := s[|sign|..];
    zeros := DigitsExactly(digits);
    assert s == sign + digits;
    Regroup(sign, Zeros(zeros), Digits(DecimalValue(digits)));
  }

  // ----- comparison -----

  datatype Ordering = Less | Equal | Greater

  function Reversed(o: Ordering): Ordering {
    match o
    case Less => Greater
    case Equal => Equal
    case Greater => Less
  }

  function CompareNat(x: nat, y: nat): Ordering {
    if x < y then Less else if x == y then Equal else Greater
  }

  /** Lexicographic comparison; the UTF-8 encoding preserves the order of scalar values, so
      this is also the byte-wise order. */
  function CompareText(a: string, b: string): Ordering {
    if a == "" then (if b == "" then Equal else Less)
    else if b == "" then Greater
    else if a[0] < b[0] then Less
    else if a[0] > b[0] then Greater
    else CompareText(a[1..], b[1..])
  }

  lemma {:induction false} CompareTextReversed(a: string, b: string)
    ensures CompareText(b, a) == Reversed(CompareText(a, b))
  {
    if a != "" && b != "" && a[0] == b[0] {
      CompareTextReversed(a[1..], b[1..]);
    }
  }

  lemma {:induction false} CompareTextEqual(a: string, b: string)
    ensures CompareText(a, b) == Equal <==> a == b
  {
    if a != "" && b != "" && a[0] == b[0] {
      CompareTextEqual(a[1..], b[1..]);
      assert a == [a[0]] + a[1..] && b == [b[0]] + b[1..];
    }
  }

  lemma {:induction false} CompareTextTransitive(a: string, b: string, c: string)
    requires CompareText(a, b) != Greater && CompareText(b, c) != Greater
    ensures CompareText(a, c) != Greater
    ensures CompareText(a, b) == Less || CompareText(b, c) == Less ==> CompareText(a, c) == Less
  {
    if a != "" && b != "" && c != "" && a[0] == b[0] && b[0] == c[0] {
      CompareTextTransitive(a[1..], b[1..], c[1..]);
    }
  }

  /** The texts agree before position `n`, where the first ends or has the smaller character. */
  predicate LessAt(a: string, b: string, n: nat) {
    && n <= |a| && n < |b| && a[..n] == b[..n]
    && (n < |a| ==> a[n] < b[n])
  }

  lemma {:induction false} CompareTextExactly(a: string, b: string)
    ensures CompareText(a, b) == Less <==> exists n: nat :: LessAt(a, b, n)
  {
    if a != "" && b != "" && a[0] == b[0] {
      CompareTextExactly(a[1..], b[1..]);
      assert a == [a[0]] + a[1..] && b == [b[0]] + b[1..];
      if n: nat :| LessAt(a[1..], b[1..], n) {
        assert a[..n + 1] == [a[0]] + a[1..][..n] && b[..n + 1] == [b[0]] + b[1..][..n];
        assert LessAt(a, b, n + 1);
      }
      if n: nat :| LessAt(a, b, n) {
        assert n > 0 && a[1..][..n - 1] == a[..n][1..] && b[1..][..n - 1] == b[..n][1..];
        assert LessAt(a[1..], b[1..], n - 1);
      }
    } else if a == "" && b != "" {
      assert LessAt(a, b, 0);
    } else if b != "" && a[0] < b[0] {
      assert LessAt(a, b, 0);
    }
  }

  lemma {:induction false} SplitOnceNone(s: string, c: char)
    ensures SplitOnce(s, c).None? <==> !Contains(s, c)
    ensures SplitOnce(s, c).Some? ==>
      var (before, after) := SplitOnce(s, c).value; !Contains(before, c) && s == before + [c] + after
  {
    if s != "" && s[0] != c {
      SplitOnceNone(s[1..], c);
      assert s == [s[0]] + s[1..];
      if Contains(s, c) {
        var i :| 0 <= i < |s| && s[i] == c;
        assert s[1..][i - 1] == c;
      }
      if Contains(s[1..], c) {
        var i :| 0 <= i < |s[1..]| && s[1..][i] == c;
        assert s[i + 1] == c;
      }
    } else if s != "" {
      assert s == "" + [c] + s[1..];
    }
  }

  /** No whitespace at either end. */
  predicate IsTrimmed(s: string) {
    s != "" ==> !IsWhitespace(s[0]) && !IsWhitespace(s[|s| - 1])
  }

  predicate AllWhitespace(s: string) {
    forall i :: 0 <= i < |s| ==> IsWhitespace(s[i])
  }

  /** Trimming takes away whitespace at both ends and nothing else. */
  lemma {:induction false} TrimExactly(s: string) returns (before: string, after: string)
    ensures IsTrimmed(Trim(s)) && AllWhitespace(before) && AllWhitespace(after)
    ensures s == before + Trim(s) + after
    decreases |s|
  {
    if s != "" && IsWhitespace(s[0]) {
      before, after := TrimExactly(s[1..]);
      Regroup([s[0]], before + Trim(s), after);
      Regroup([s[0]], before, Trim(s));
      assert s == [s[0]] + s[1..];
      before := [s[0]] + before;
    } else if s != "" && IsWhitespace(s[|s| - 1]) {
      before, after := TrimExactly(s[..|s| - 1]);
      Regroup(before + Trim(s), after, [s[|s| - 1]]);
      assert s == s[..|s| - 1] + [s[|s| - 1]];
      after := after + [s[|s| - 1]];
    } else {
      before, after := "", "";
    }
  }

  /** Whitespace around a trimmed text does not matter. */
  lemma {:induction false} TrimAround(before: string, s: string, after: string)
    requires AllWhitespace(before) && AllWhitespace(after) && IsTrimmed(s) && s != ""
    ensures Trim(before + s + after) == s
    decreases |before| + |after|
  {
    var all := before + s + after;
    if before != "" {
      assert all[0] == before[0] && all[1..] == before[1..] + s + after;
      TrimAround(before[1..], s, after);
    } else if after != "" {
      assert all[0] == s[0] && all[|all| - 1] == after[|after| - 1];
      assert all[..|all| - 1] == before + s + after[..|after| - 1];
      TrimAround(before, s, after[..|after| - 1]);
    } else {
      assert all == s;
    }
  }
}
