/** The timestamp format of the request signer (crates/auth/src/sigv4.rs): as text it has a
    fixed width and the order of time, up to the end of the year 9999. */
module AmzDate {
  import opened Text
  import opened Calendar

  const SECONDS_PER_DAY := 86_400
  /** 1 January 10000, 00:00:00. */
  const YEAR_10000 := 253_402_300_800

  // ----- formatting -----

  /** At least `width` characters, with leading zeros. */
  function Padded(n: nat, width: nat): string {
    var s := Digits(n);
    if |s| >= width then s else Zeros(width - |s|) + s
  }

  function Stamp(d: Date, hour: nat, minute: nat, second: nat): string {
    Padded(d.year, 4) + (Padded(d.month, 2) + (Padded(d.day, 2) + ("T" +
      (Padded(hour, 2) + (Padded(minute, 2) + (Padded(second, 2) + "Z"))))))
  }

  function FormatAmzDate(timestamp: U64): string {
    var days: U64 := timestamp / 86_400;
    var d := DaysToYmd(days);
    var rem: U64 := timestamp % 86_400;
    Stamp(d, rem / 3600, (rem % 3600) / 60, rem % 60)
  }

  // ----- fixed width -----

  function Power10(w: nat): nat {
    if w == 0 then 1 else 10 * Power10(w - 1)
  }

  /** The last `w` digits. */
  function Fixed(n: nat, w: nat): string {
    if w == 0 then "" else Fixed(n / 10, w - 1) + [Digit(n % 10)]
  }

  lemma {:induction false} FixedLength(n: nat, w: nat)
    ensures |Fixed(n, w)| == w
  {
    if w > 0 {
      FixedLength(n / 10, w - 1);
    }
  }

  lemma {:induction false} FixedZero(w: nat)
    ensures Fixed(0, w) == Zeros(w) && Zeros(w) + "0" == "0" + Zeros(w)
  {
    if w > 0 {
      FixedZero(w - 1);
    }
  }

  /** Padding is writing the last digits, when the number fits. */
  lemma {:induction false} PaddedFits(n: nat, w: nat)
    requires w > 0
    ensures n < Power10(w) ==> Padded(n, w) == Fixed(n, w)
    ensures n >= Power10(w) ==> |Padded(n, w)| > w
  {
    if n < 10 {
      FixedZero(w - 1);
      assert n / 10 == 0 && n % 10 == n;
      assert Power10(w) >= 10 by { PowerPositive(w - 1); }
    } else if w == 1 {
      assert |Digits(n / 10)| > 0;
    } else {
      PaddedFits(n / 10, w - 1);
      assert n < Power10(w) <==> n / 10 < Power10(w - 1);
      if n < Power10(w) {
        PaddedTens(n, w);
      }
    }
  }

  lemma PaddedTens(n: nat, w: nat)
    requires n >= 10 && w > 1 && Padded(n / 10, w - 1) == Fixed(n / 10, w - 1)
    ensures Padded(n, w) == Fixed(n, w)
  {
    var s := Digits(n / 10);
    FixedLength(n / 10, w - 1);
    assert |s| <= w - 1;
    var zs := if |s| >= w - 1 then "" else Zeros(w - 1 - |s|);
    assert zs + s == Fixed(n / 10, w - 1);
    assert Padded(n, w) == zs + (s + [Digit(n % 10)]);
    assert zs + (s + [Digit(n % 10)]) == (zs + s) + [Digit(n % 10)];
  }

  lemma {:induction false} PowerPositive(w: nat)
    ensures Power10(w) >= 1
  {
    if w > 0 {
      PowerPositive(w - 1);
    }
  }

  // ----- order -----

  /** Texts of equal length compare by their first parts, then by their second parts. */
  lemma {:induction false} CompareConcat(s: string, t: string, a: string, b: string)
    requires |s| == |t|
    ensures CompareText(s + a, t + b) ==
            if CompareText(s, t) == Equal then CompareText(a, b) else CompareText(s, t)
  {
    if s == "" {
      assert s + a == a && t + b == b;
    } else {
      CompareConcat(s[1..], t[1..], a, b);
      assert (s + a)[1..] == s[1..] + a && (t + b)[1..] == t[1..] + b;
    }
  }

  /** Fixed-width numbers compare as texts as they do as numbers. */
  lemma {:induction false} FixedOrder(m: nat, n: nat, w: nat)
    requires m < Power10(w) && n < Power10(w)
    ensures CompareText(Fixed(m, w), Fixed(n, w)) == CompareNat(m, n)
  {
    if w > 0 {
      FixedOrder(m / 10, n / 10, w - 1);
      FixedLength(m / 10, w - 1);
      FixedLength(n / 10, w - 1);
      CompareConcat(Fixed(m / 10, w - 1), Fixed(n / 10, w - 1), [Digit(m % 10)], [Digit(n % 10)]);
      assert [Digit(m % 10)][1..] == "" && [Digit(n % 10)][1..] == "";
      assert CompareText([Digit(m % 10)], [Digit(n % 10)]) == CompareNat(m % 10, n % 10);
    }
  }

  function Then(first: Ordering, second: Ordering): Ordering {
    if first == Equal then second else first
  }

  lemma PaddedOrder(m: nat, n: nat, w: nat, a: string, b: string)
    requires w > 0 && m < Power10(w) && n < Power10(w)
    ensures |Padded(m, w)| == |Padded(n, w)| == w
    ensures CompareText(Padded(m, w) + a, Padded(n, w) + b) == Then(CompareNat(m, n), CompareText(a, b))
  {
    PaddedFits(m, w);
    PaddedFits(n, w);
    FixedLength(m, w);
    FixedLength(n, w);
    FixedOrder(m, n, w);
    CompareConcat(Padded(m, w), Padded(n, w), a, b);
  }

  function CompareDates(a: Date, b: Date): Ordering {
    Then(CompareNat(a.year, b.year), Then(CompareNat(a.month, b.month), CompareNat(a.day, b.day)))
  }

  lemma TomorrowIsLater(d: Date)
    requires IsDate(d)
    ensures CompareDates(d, Tomorrow(d)) == Less
  {
  }

  lemma LaterThanLater(a: Date, b: Date, c: Date)
    requires CompareDates(a, b) == Less && CompareDates(b, c) == Less
    ensures CompareDates(a, c) == Less
  {
  }

  /** Days in order have dates in order. */
  lemma {:induction false} DatesInOrder(a: U64, b: U64)
    requires a < b && b + EPOCH_SHIFT <= U64_MAX
    ensures CompareDates(CivilDate(a), CivilDate(b)) == Less
    decreases b
  {
    var c := CivilDate(b - 1);
    ClosedFormIsCalendar(b - 1);
    TomorrowIsLater(c);
    assert CivilDate(b) == Tomorrow(c);
    if a < b - 1 {
      DatesInOrder(a, b - 1);
      LaterThanLater(CivilDate(a), c, CivilDate(b));
    }
  }

  lemma Year10000(days: U64)
    requires days == 2_932_897
    ensures CivilDate(days) == Date(10_000, 1, 1)
  {
    YearStartClosed(9999);
    YearStartClosed(10_000);
    MarchDayIs(days + EPOCH_SHIFT, 9999);
    CivilByMarch(days, 9999, 306);
  }

  lemma YearInRange(days: U64)
    requires days + EPOCH_SHIFT <= U64_MAX
    ensures CivilDate(days).year <= 9999 <==> days < 2_932_897
  {
    var first: U64 := YEAR_10000 / SECONDS_PER_DAY;
    var c, d := CivilDate(first), CivilDate(days);
    assert c == Date(10_000, 1, 1) by { Year10000(first); }
    if days < first {
      assert CompareDates(d, c) == Less by { DatesInOrder(days, first); }
      assert IsDate(d) by { ClosedFormIsCalendar(days); }
    } else if days > first {
      assert CompareDates(c, d) == Less by { DatesInOrder(first, days); }
    }
  }

  /** The fields of a timestamp, each small enough for its column up to the year 9999. */
  lemma Fields(timestamp: U64) returns (d: Date, h: nat, mi: nat, s: nat)
    ensures timestamp / SECONDS_PER_DAY + EPOCH_SHIFT <= U64_MAX
    ensures d == CivilDate(timestamp / SECONDS_PER_DAY) && d.month < 100 && d.day < 100
    ensures h < 24 && mi < 60 && s < 60
    ensures timestamp % SECONDS_PER_DAY == 3600 * h + 60 * mi + s
    ensures FormatAmzDate(timestamp) == Stamp(d, h, mi, s)
    ensures d.year < 10_000 <==> timestamp < YEAR_10000
  {
    var days := timestamp / SECONDS_PER_DAY;
    ClosedFormIsCalendar(days);
    YearInRange(days);
    d := CivilDate(days);
    var rem := timestamp % SECONDS_PER_DAY;
    h, mi, s := rem / 3600, (rem % 3600) / 60, rem % 60;
    SecondsOfHour(rem);
  }

  lemma SecondsOfHour(rem: nat)
    ensures (rem % 3600) / 60 * 60 + rem % 60 == rem % 3600
  {
    assert (rem % 3600) % 60 == rem % 60 by {
      assert rem == 3600 * (rem / 3600) + rem % 3600;
      Quotient(rem, 60, 60 * (rem / 3600) + (rem % 3600) / 60, (rem % 3600) % 60);
    }
  }

  lemma Powers()
    ensures Power10(4) == 10_000 && Power10(2) == 100
  {
    assert Power10(2) == 100;
  }

  /** Width 16 exactly up to the end of the year 9999; the first eight characters are then
      the date. */
  lemma FixedWidth(timestamp: U64)
    ensures |FormatAmzDate(timestamp)| == 16 <==> timestamp < YEAR_10000
    ensures timestamp < YEAR_10000 ==>
      var d := CivilDate(timestamp / SECONDS_PER_DAY);
      FormatAmzDate(timestamp)[..8] == Fixed(d.year, 4) + Fixed(d.month, 2) + Fixed(d.day, 2)
  {
    var d, h, mi, s := Fields(timestamp);
    Powers();
    PaddedFits(d.year, 4);
    FixedLength(d.year, 4);
    TwoDigits(d.month);
    TwoDigits(d.day);
    TwoDigits(h);
    TwoDigits(mi);
    TwoDigits(s);
  }

  lemma TwoDigits(n: nat)
    requires n < 100
    ensures Padded(n, 2) == Fixed(n, 2) && |Fixed(n, 2)| == 2
  {
    Powers();
    PaddedFits(n, 2);
    FixedLength(n, 2);
  }

  lemma StampOrder(d: Date, h: nat, mi: nat, s: nat, d': Date, h': nat, mi': nat, s': nat)
    requires d.year < 10_000 && d.month < 100 && d.day < 100 && h < 24 && mi < 60 && s < 60
    requires d'.year < 10_000 && d'.month < 100 && d'.day < 100 && h' < 24 && mi' < 60 && s' < 60
    ensures CompareText(Stamp(d, h, mi, s), Stamp(d', h', mi', s')) ==
            Then(CompareDates(d, d'), CompareNat(3600 * h + 60 * mi + s, 3600 * h' + 60 * mi' + s'))
  {
    Powers();
    var s6, t6 := Padded(s, 2) + "Z", Padded(s', 2) + "Z";
    var s5, t5 := Padded(mi, 2) + s6, Padded(mi', 2) + t6;
    var s4, t4 := Padded(h, 2) + s5, Padded(h', 2) + t5;
    var s3, t3 := "T" + s4, "T" + t4;
    var s2, t2 := Padded(d.day, 2) + s3, Padded(d'.day, 2) + t3;
    var s1, t1 := Padded(d.month, 2) + s2, Padded(d'.month, 2) + t2;
    CompareTextEqual("Z", "Z");
    CompareTextEqual("T", "T");
    PaddedOrder(s, s', 2, "Z", "Z");
    PaddedOrder(mi, mi', 2, s6, t6);
    PaddedOrder(h, h', 2, s5, t5);
    CompareConcat("T", "T", s4, t4);
    PaddedOrder(d.day, d'.day, 2, s3, t3);
    PaddedOrder(d.month, d'.month, 2, s2, t2);
    PaddedOrder(d.year, d'.year, 4, s1, t1);
    ClockOrder(h, mi, s, h', mi', s');
  }

  lemma ClockOrder(h: nat, mi: nat, s: nat, h': nat, mi': nat, s': nat)
    requires mi < 60 && s < 60 && mi' < 60 && s' < 60
    ensures Then(CompareNat(h, h'), Then(CompareNat(mi, mi'), CompareNat(s, s'))) ==
            CompareNat(3600 * h + 60 * mi + s, 3600 * h' + 60 * mi' + s')
  {
  }

  /** Timestamps compare as texts as they do as numbers, up to the end of the year 9999; so
      different timestamps have different texts there. */
  lemma OrderPreserving(t: U64, t': U64)
    requires t < YEAR_10000 && t' < YEAR_10000
    ensures CompareText(FormatAmzDate(t), FormatAmzDate(t')) == CompareNat(t, t')
    ensures FormatAmzDate(t) == FormatAmzDate(t') <==> t == t'
  {
    var d, h, mi, s := Fields(t);
    var d', h', mi', s' := Fields(t');
    var a, b := t / SECONDS_PER_DAY, t' / SECONDS_PER_DAY;
    assert CompareText(FormatAmzDate(t), FormatAmzDate(t')) ==
           Then(CompareDates(d, d'), CompareNat(t % SECONDS_PER_DAY, t' % SECONDS_PER_DAY)) by {
      StampOrder(d, h, mi, s, d', h', mi', s');
    }
    assert CompareDates(d, d') == CompareNat(a, b) by { DatesCompare(a, b); }
    DaysThenSeconds(t, t');
    CompareTextEqual(FormatAmzDate(t), FormatAmzDate(t'));
  }

  lemma DatesCompare(a: U64, b: U64)
    requires a + EPOCH_SHIFT <= U64_MAX && b + EPOCH_SHIFT <= U64_MAX
    ensures CompareDates(CivilDate(a), CivilDate(b)) == CompareNat(a, b)
  {
    var c, d := CivilDate(a), CivilDate(b);
    if a < b {
      DatesInOrder(a, b);
    } else if b < a {
      assert CompareDates(d, c) == Less by { DatesInOrder(b, a); }
    }
  }

  lemma DaysThenSeconds(t: nat, t': nat)
    ensures Then(CompareNat(t / SECONDS_PER_DAY, t' / SECONDS_PER_DAY),
                 CompareNat(t % SECONDS_PER_DAY, t' % SECONDS_PER_DAY)) == CompareNat(t, t')
  {
  }

  lemma DigitsFirst(n: nat)
    requires n >= 10
    ensures |Digits(n)| == |Digits(n / 10)| + 1 && Digits(n)[0] == Digits(n / 10)[0]
  {
    assert |Digits(n / 10)| > 0;
  }

  lemma LongYears()
    ensures |Digits(9999)| == 4 && Digits(9999)[0] == '9'
    ensures |Digits(10_000)| == 5 && Digits(10_000)[0] == '1'
  {
    assert Digits(9) == "9" && Digits(1) == "1";
    DigitsFirst(99);
    DigitsFirst(999);
    DigitsFirst(9999);
    DigitsFirst(10);
    DigitsFirst(100);
    DigitsFirst(1000);
    DigitsFirst(10_000);
  }

  /** One second later the texts no longer order: the year takes a fifth digit. */
  lemma OrderBreaks(last: U64, next: U64)
    requires last == YEAR_10000 - 1 && next == YEAR_10000
    ensures CompareText(FormatAmzDate(last), FormatAmzDate(next)) == Greater
  {
    var d, h, mi, s := Fields(last);
    var d', h', mi', s' := Fields(next);
    LastOf9999(last, d, next, d');
    LongYears();
    StampStart(d, h, mi, s);
    StampStart(d', h', mi', s');
  }

  ghost predicate TextsInOrder(end: nat) {
    forall t: U64, t': U64 :: t < end && t' < end ==>
      CompareText(FormatAmzDate(t), FormatAmzDate(t')) == CompareNat(t, t')
  }

  /** All timestamps before an end compare as texts as they do as numbers if and only if that
      end is not after the year 9999. */
  lemma OrderExactly(end: nat)
    ensures TextsInOrder(end) <==> end <= YEAR_10000
  {
    if end <= YEAR_10000 {
      forall t: U64, t': U64 | t < end && t' < end
        ensures CompareText(FormatAmzDate(t), FormatAmzDate(t')) == CompareNat(t, t')
      {
        OrderPreserving(t, t');
      }
    } else {
      OutOfOrder(YEAR_10000 - 1, YEAR_10000, end);
    }
  }

  lemma OutOfOrder(last: U64, next: U64, end: nat)
    requires last == YEAR_10000 - 1 && next == YEAR_10000 && next < end
    ensures !TextsInOrder(end)
  {
    OrderBreaks(last, next);
    assert CompareNat(last, next) == Less;
  }

  lemma LastOf9999(last: U64, d: Date, next: U64, d': Date)
    requires last == YEAR_10000 - 1 && next == YEAR_10000
    requires d == CivilDate(last / SECONDS_PER_DAY) && d' == CivilDate(next / SECONDS_PER_DAY)
    ensures d.year == 9999 && d'.year == 10_000
  {
    var day: U64 := last / SECONDS_PER_DAY;
    assert next / SECONDS_PER_DAY == day + 1 == 2_932_897;
    assert d' == Date(10_000, 1, 1) by { Year10000(day + 1); }
    assert d' == Tomorrow(d) && IsDate(d) by { ClosedFormIsCalendar(day); }
    assert d'.year <= d.year + 1;
    assert d.year <= 9999 by { YearInRange(day); }
  }

  lemma StampStart(d: Date, h: nat, mi: nat, s: nat)
    requires |Digits(d.year)| >= 4
    ensures Stamp(d, h, mi, s) != "" && Stamp(d, h, mi, s)[0] == Digits(d.year)[0]
  {
  }

  // ----- reading the text back -----

  function DigitValue(c: char): int {
    c as int - '0' as int
  }

  function Pair(n: nat): string
    requires n < 100
  {
    [Digit(n / 10), Digit(n % 10)]
  }

  lemma PaddedPair(n: nat, w: nat)
    requires n < 100 && w == 2
    ensures Padded(n, w) == Pair(n)
  {
    assert n >= 10 ==> Digits(n / 10) == [Digit(n / 10)];
    assert Zeros(1) == "0" + Zeros(0);
  }

  lemma FixedPair(n: nat, high: nat, w: nat)
    requires n < 100 && w >= 2
    ensures Fixed(100 * high + n, w) == Fixed(high, w - 2) + Pair(n)
  {
    var m := 100 * high + n;
    assert m % 10 == n % 10 && m / 10 == 10 * high + n / 10;
    assert m / 10 % 10 == n / 10 && m / 10 / 10 == high;
    assert Fixed(m / 10, w - 1) == Fixed(high, w - 2) + [Digit(n / 10)];
  }

  lemma PaddedYear(year: nat, w: nat)
    requires year < 10_000 && w == 4
    ensures Padded(year, w) == Pair(year / 100) + Pair(year % 100)
  {
    Powers();
    PaddedFits(year, w);
    FixedPair(year % 100, year / 100, w);
    FixedPair(year / 100, 0, w - 2);
    assert Fixed(0, w - 4) == "";
  }

  /** The number that two digits of a text spell. */
  function TwoAt(s: string, i: nat): int
    requires i + 1 < |s|
  {
    10 * DigitValue(s[i]) + DigitValue(s[i + 1])
  }

  predicate DigitsAt(s: string, from: nat, to: nat)
    requires to <= |s|
  {
    forall i :: from <= i < to ==> '0' <= s[i] <= '9'
  }

  predicate Spells(s: string, i: nat, n: nat) {
    i + 1 < |s| && DigitsAt(s, i, i + 2) && TwoAt(s, i) == n
  }

  /** Seven columns of two characters, with the letters between them. */
  lemma Columns(t: string, y: string, y': string, mo: string, d: string, h: string, mi: string, s: string)
    requires |y| == |y'| == |mo| == |d| == |h| == |mi| == |s| == 2
    requires t == (y + y') + (mo + (d + ("T" + (h + (mi + (s + "Z"))))))
    ensures |t| == 16 && t[8] == 'T' && t[15] == 'Z'
    ensures t[0..2] == y && t[2..4] == y' && t[4..6] == mo && t[6..8] == d
    ensures t[9..11] == h && t[11..13] == mi && t[13..15] == s
  {
  }

  lemma SpelledColumn(t: string, i: nat, n: nat)
    requires n < 100 && i + 2 <= |t| && t[i..i + 2] == Pair(n)
    ensures Spells(t, i, n)
  {
    assert t[i] == t[i..i + 2][0] && t[i + 1] == t[i..i + 2][1];
  }

  lemma StampPairs(d: Date, h: nat, mi: nat, s: nat)
    requires d.year < 10_000 && d.month < 100 && d.day < 100 && h < 100 && mi < 100 && s < 100
    ensures Stamp(d, h, mi, s) ==
            (Pair(d.year / 100) + Pair(d.year % 100)) + (Pair(d.month) + (Pair(d.day) + ("T" +
              (Pair(h) + (Pair(mi) + (Pair(s) + "Z"))))))
  {
    PaddedYear(d.year, 4);
    PaddedPair(d.month, 2);
    PaddedPair(d.day, 2);
    PaddedPair(h, 2);
    PaddedPair(mi, 2);
    PaddedPair(s, 2);
  }

  /** A text reads, digit by digit, as a date, a `T`, a clock that shows a number of seconds,
      and a `Z`. */
  predicate ReadsAs(t: string, d: Date, seconds: nat) {
    && |t| == 16 && t[8] == 'T' && t[15] == 'Z'
    && DigitsAt(t, 0, 2) && DigitsAt(t, 2, 4) && DigitsAt(t, 4, 6) && DigitsAt(t, 6, 8)
    && DigitsAt(t, 9, 11) && DigitsAt(t, 11, 13) && DigitsAt(t, 13, 15)
    && 100 * TwoAt(t, 0) + TwoAt(t, 2) == d.year && TwoAt(t, 4) == d.month && TwoAt(t, 6) == d.day
    && TwoAt(t, 9) < 24 && TwoAt(t, 11) < 60 && TwoAt(t, 13) < 60
    && 3600 * TwoAt(t, 9) + 60 * TwoAt(t, 11) + TwoAt(t, 13) == seconds
  }

  lemma ColumnsRead(t: string, y: nat, y': nat, d: Date, h: nat, mi: nat, s: nat)
    requires y < 100 && y' < 100 && d.year == 100 * y + y' && d.month < 100 && d.day < 100
    requires h < 24 && mi < 60 && s < 60
    requires t == (Pair(y) + Pair(y')) + (Pair(d.month) + (Pair(d.day) + ("T" +
               (Pair(h) + (Pair(mi) + (Pair(s) + "Z"))))))
    ensures ReadsAs(t, d, 3600 * h + 60 * mi + s)
  {
    Columns(t, Pair(y), Pair(y'), Pair(d.month), Pair(d.day), Pair(h), Pair(mi), Pair(s));
    SpelledColumn(t, 0, y);
    SpelledColumn(t, 2, y');
    SpelledColumn(t, 4, d.month);
    SpelledColumn(t, 6, d.day);
    SpelledColumn(t, 9, h);
    SpelledColumn(t, 11, mi);
    SpelledColumn(t, 13, s);
  }

  lemma StampReads(t: string, d: Date, h: nat, mi: nat, s: nat)
    requires d.year < 10_000 && d.month < 100 && d.day < 100 && h < 24 && mi < 60 && s < 60
    requires t == Stamp(d, h, mi, s)
    ensures ReadsAs(t, d, 3600 * h + 60 * mi + s)
  {
    StampPairs(d, h, mi, s);
    ColumnsRead(t, d.year / 100, d.year % 100, d, h, mi, s);
  }

  /** Up to the end of the year 9999 the text reads back as the date of the day and the clock
      of the second within the day. */
  lemma ReadsBack(timestamp: U64)
    requires timestamp < YEAR_10000
    ensures ReadsAs(FormatAmzDate(timestamp), CivilDate(timestamp / SECONDS_PER_DAY), timestamp % SECONDS_PER_DAY)
  {
    var d, h, mi, s := Fields(timestamp);
    StampReads(FormatAmzDate(timestamp), d, h, mi, s);
  }
}
