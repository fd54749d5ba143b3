/** Dates for the request signer (crates/auth/src/sigv4.rs): the closed-form conversion of a
    day count against a calendar that only knows how to turn the page. */
module Calendar {

  const U64_MAX: int := 0xFFFF_FFFF_FFFF_FFFF
  const DAYS_PER_ERA := 146_097
  const EPOCH_SHIFT := 719_468

  /** A 64-bit unsigned integer: nothing below may underflow or overflow. */
  type U64 = x: int | 0 <= x <= U64_MAX

  datatype Date = Date(year: nat, month: nat, day: nat)

  // ----- the naive proleptic Gregorian calendar -----

  predicate IsLeap(year: nat) {
    year % 4 == 0 && (year % 100 != 0 || year % 400 == 0)
  }

  function MonthLength(year: nat, month: nat): nat {
    if month == 2 then (if IsLeap(year) then 29 else 28)
    else if month in {4, 6, 9, 11} then 30
    else 31
  }

  predicate IsDate(d: Date) {
    1 <= d.month <= 12 && 1 <= d.day <= MonthLength(d.year, d.month)
  }

  function Tomorrow(d: Date): Date {
    if d.day < MonthLength(d.year, d.month) then Date(d.year, d.month, d.day + 1)
    else if d.month < 12 then Date(d.year, d.month + 1, 1)
    else Date(d.year + 1, 1, 1)
  }

  /** The date `days` days after 1 January 1970, one day at a time. */
  function CivilDate(days: nat): Date {
    if days == 0 then Date(1970, 1, 1) else Tomorrow(CivilDate(days - 1))
  }

  // ----- the closed form -----

  /** The year of the era a day falls in, years running from March. Every intermediate value
      here and below is a `U64`: no subtraction underflows and no sum overflows. */
  function YearOf(doe: U64): U64 {
    var minusLeaps: U64 := doe - doe / 1460;
    var plusCenturies: U64 := minusLeaps + doe / 36_524;
    var minusEras: U64 := plusCenturies - doe / 146_096;
    minusEras / 365
  }

  /** The days of the era before its year `yoe`. */
  function DaysBefore(yoe: U64): U64
    requires yoe < 400
  {
    365 * yoe + yoe / 4 - yoe / 100
  }

  /** Month and day from the day of a year that starts on 1 March. */
  function MarchDate(y: nat, doy: U64): Date
    requires doy <= 365
  {
    var mp: U64 := (5 * doy + 2) / 153;
    var d0: U64 := doy - (153 * mp + 2) / 5;
    var d: U64 := d0 + 1;
    var m: U64 := if mp < 10 then mp + 3 else mp - 9;
    Date(if m <= 2 then y + 1 else y, m, d)
  }

  function DaysToYmd(days: U64): Date
    requires days + EPOCH_SHIFT <= U64_MAX
  {
    var z: U64 := days + 719_468;
    var era: U64 := z / 146_097;
    var doe: U64 := z - era * 146_097;
    YearOfEra(doe);
    var yoe := YearOf(doe);
    var y: U64 := yoe + era * 400;
    var doy: U64 := doe - DaysBefore(yoe);
    assert y + 1 <= U64_MAX;
    MarchDate(y, doy)
  }

  /** The year the formula computes is the one the day falls in. */
  lemma YearOfEra(doe: nat)
    requires doe < DAYS_PER_ERA
    ensures YearOf(doe) < 400 && InYear(doe, YearOf(doe))
    ensures YearStart(YearOf(doe)) == DaysBefore(YearOf(doe))
    ensures DaysBefore(YearOf(doe)) <= doe <= DaysBefore(YearOf(doe)) + 365
  {
    var c, q, r, k := SplitDay(doe);
    FormulaYear(doe, c, q, r, k);
    SplitBounds(doe, c, q, r, k);
    YearStartClosed(YearOf(doe));
  }

  // ----- years that start in March -----

  /** Days before the year `y`, for years that start on 1 March of year 0: a year has a
      366th day when the next one is leap. */
  function YearStart(y: nat): nat {
    if y == 0 then 0 else YearStart(y - 1) + (if IsLeap(y) then 366 else 365)
  }

  predicate InYear(doe: nat, y: nat) {
    YearStart(y) <= doe < YearStart(y + 1)
  }

  function YearStartFormula(y: nat): int {
    365 * y + y / 4 - y / 100 + y / 400
  }

  lemma QuotientSteps(y: nat, m: nat)
    requires m > 0
    ensures (y + 1) / m - y / m == if (y + 1) % m == 0 then 1 else 0
  {
    var q, r := y / m, y % m;
    assert y == q * m + r;
    if r + 1 == m {
      assert y + 1 == (q + 1) * m + 0;
      Quotient(y + 1, m, q + 1, 0);
    } else {
      Quotient(y + 1, m, q, r + 1);
    }
  }

  lemma Quotient(n: nat, m: nat, q: nat, r: nat)
    requires m > 0 && n == q * m + r && r < m
    ensures n / m == q && n % m == r
  {
    var d := n / m - q;
    assert n == (n / m) * m + n % m;
    assert d * m == r - n % m;
    MultipleBound(d, m);
  }

  lemma MultipleBound(d: int, m: nat)
    ensures d >= 1 ==> d * m >= m
    ensures d <= -1 ==> d * m <= -(m as int)
  {
  }

  lemma FormulaStep(y: nat)
    ensures YearStartFormula(y + 1) - YearStartFormula(y) == if IsLeap(y + 1) then 366 else 365
  {
    QuotientSteps(y, 4);
    QuotientSteps(y, 100);
    QuotientSteps(y, 400);
    var n := y + 1;
    if n % 100 == 0 { Quotient(n, 4, 25 * (n / 100), 0); }
    if n % 400 == 0 { Quotient(n, 100, 4 * (n / 400), 0); }
  }

  lemma {:induction false} YearStartClosed(y: nat)
    ensures YearStart(y) == YearStartFormula(y)
  {
    if y > 0 {
      YearStartClosed(y - 1);
      FormulaStep(y - 1);
    }
  }

  /** A day of an era as century, four-year cycle, day of the cycle and year of the cycle. */
  predicate Splits(doe: nat, c: nat, q: nat, r: nat, k: nat) {
    && doe < DAYS_PER_ERA && doe == 36_524 * c + 1461 * q + r
    && c <= 3 && q <= 24 && k <= 3
    && 365 * k <= r <= 365 * k + 364 + k / 3
    && (c < 3 ==> 1461 * q + r < 36_524)
  }

  lemma SplitDay(doe: nat) returns (c: nat, q: nat, r: nat, k: nat)
    requires doe < DAYS_PER_ERA
    ensures Splits(doe, c, q, r, k)
  {
    c := if doe == 146_096 then 3 else doe / 36_524;
    var n := doe - 36_524 * c;
    q := n / 1461;
    r := n - 1461 * q;
    k := if r == 1460 then 3 else r / 365;
  }

  lemma FormulaYear(doe: nat, c: nat, q: nat, r: nat, k: nat)
    requires Splits(doe, c, q, r, k)
    ensures YearOf(doe) == 100 * c + 4 * q + k
  {
    var e := 24 * c + q + r;
    assert doe == 1460 * (25 * c + q) + e;
    assert doe / 1460 == 25 * c + q + (if e >= 1460 then 1 else 0);
    assert doe / 36_524 == c + (if doe == 146_096 then 1 else 0);
    assert doe / 146_096 == if doe == 146_096 then 1 else 0;
    var s := doe - doe / 1460 + doe / 36_524 - doe / 146_096;
    var y := 100 * c + 4 * q + k;
    assert s - 365 * y == r - 365 * k - (if e >= 1460 then 1 else 0);
    assert 365 * y <= s < 365 * y + 365;
  }

  lemma SplitBounds(doe: nat, c: nat, q: nat, r: nat, k: nat)
    requires Splits(doe, c, q, r, k)
    ensures var y := 100 * c + 4 * q + k;
            y < 400 && YearStart(y) <= doe < YearStart(y + 1)
  {
    var y := 100 * c + 4 * q + k;
    assert y / 4 == 25 * c + q && y / 100 == c && y / 400 == 0;
    YearStartClosed(y);
    YearStartClosed(y + 1);
    assert YearStart(y) == 36_524 * c + 1461 * q + 365 * k;
    if k < 3 {
      assert (y + 1) / 4 == 25 * c + q && (y + 1) / 100 == c;
    } else if q < 24 {
      assert (y + 1) / 4 == 25 * c + q + 1 && (y + 1) / 100 == c;
    } else {
      assert y + 1 == 100 * (c + 1);
      assert (y + 1) / 4 == 25 * (c + 1) && (y + 1) / 100 == c + 1;
    }
  }

  // ----- the closed form against the calendar -----

  lemma LeapInEra(era: nat, y: nat)
    ensures IsLeap(400 * era + y) <==> IsLeap(y)
  {
    Quotient(400 * era + y, 4, 100 * era + y / 4, y % 4);
    Quotient(400 * era + y, 100, 4 * era + y / 100, y % 100);
    Quotient(400 * era + y, 400, era + y / 400, y % 400);
  }

  /** The calendar repeats with the eras. */
  lemma {:induction false} YearStartInEra(era: nat, y: nat)
    ensures YearStart(400 * era + y) == DAYS_PER_ERA * era + YearStart(y)
    decreases era, y
  {
    if y > 0 {
      YearStartInEra(era, y - 1);
      LeapInEra(era, y);
    } else if era > 0 {
      YearStartInEra(era - 1, 400);
      YearStartClosed(400);
    }
  }

  lemma {:induction false} YearStartsIncrease(a: nat, b: nat)
    ensures a < b ==> YearStart(a + 1) <= YearStart(b)
    decreases b
  {
    if a + 1 < b {
      YearStartsIncrease(a, b - 1);
    }
  }

  function LastDay(year: nat): nat {
    if IsLeap(year + 1) then 365 else 364
  }

  lemma LastDayIs(year: nat)
    ensures LastDay(year) == YearStart(year + 1) - YearStart(year) - 1
  {
  }

  /** The calendar of years that start on 1 March of year 0: year and day of the year. */
  function MarchDay(z: nat): (r: (nat, nat))
    ensures r.1 <= LastDay(r.0)
  {
    if z == 0 then (0, 0)
    else
      var (year, doy) := MarchDay(z - 1);
      if doy < LastDay(year) then (year, doy + 1) else (year + 1, 0)
  }

  lemma MarchDayStep(z: nat, year: nat, doy: nat)
    requires MarchDay(z) == (year, doy)
    ensures MarchDay(z + 1) == if doy < LastDay(year) then (year, doy + 1) else (year + 1, 0)
  {
  }

  lemma {:induction false} MarchDayIs(z: nat, y: nat)
    requires InYear(z, y)
    ensures MarchDay(z) == (y, z - YearStart(y))
    decreases z
  {
    if z == 0 {
      YearStartsIncrease(0, y);
    } else if z == YearStart(y) {
      LastDayIs(y - 1);
      MarchDayIs(z - 1, y - 1);
      MarchDayStep(z - 1, y - 1, LastDay(y - 1));
    } else {
      LastDayIs(y);
      MarchDayIs(z - 1, y);
      MarchDayStep(z - 1, y, z - 1 - YearStart(y));
    }
  }

  /** Within a March year: a real date, and the next day is tomorrow. */
  lemma MarchTomorrow(year: nat, doy: nat)
    requires doy <= LastDay(year)
    ensures IsDate(MarchDate(year, doy))
    ensures doy < LastDay(year) ==> MarchDate(year, doy + 1) == Tomorrow(MarchDate(year, doy))
    ensures doy == LastDay(year) ==> MarchDate(year + 1, 0) == Tomorrow(MarchDate(year, doy))
  {
  }

  lemma EpochInMarch()
    ensures MarchDay(EPOCH_SHIFT) == (1969, 306) && MarchDate(1969, 306) == Date(1970, 1, 1)
  {
    YearStartClosed(1969);
    YearStartClosed(1970);
    assert YearStart(1969) == 719_162 && YearStart(1970) == 719_527;
    MarchDayIs(EPOCH_SHIFT, 1969);
  }

  /** The calendar, counted from 1 March of year 0. */
  lemma {:induction false} CivilByMarch(days: nat, year: nat, doy: nat)
    requires MarchDay(days + EPOCH_SHIFT) == (year, doy)
    ensures CivilDate(days) == MarchDate(year, doy) && IsDate(CivilDate(days))
    decreases days
  {
    MarchTomorrow(year, doy);
    if days == 0 {
      EpochInMarch();
    } else {
      var (before, n) := MarchDay(days - 1 + EPOCH_SHIFT);
      CivilByMarch(days - 1, before, n);
      CivilStep(days - 1, before, n);
    }
  }

  lemma CivilStep(days: nat, year: nat, doy: nat)
    requires MarchDay(days + EPOCH_SHIFT) == (year, doy) && CivilDate(days) == MarchDate(year, doy)
    ensures var (next, n) := MarchDay(days + 1 + EPOCH_SHIFT);
            CivilDate(days + 1) == MarchDate(next, n)
  {
    MarchDayStep(days + EPOCH_SHIFT, year, doy);
    MarchTomorrow(year, doy);
  }

  /** Era, year of the era and day of the year, as the closed form computes them. */
  lemma YmdParts(days: U64, era: nat, doe: nat, year: nat, doy: nat)
    requires days + EPOCH_SHIFT <= U64_MAX
    requires days + EPOCH_SHIFT == era * DAYS_PER_ERA + doe && doe < DAYS_PER_ERA
    requires year == 400 * era + YearOf(doe) && YearOf(doe) < 400
    requires doy <= 365 && doy == doe - DaysBefore(YearOf(doe))
    ensures DaysToYmd(days) == MarchDate(year, doy)
  {
    Quotient(days + EPOCH_SHIFT, DAYS_PER_ERA, era, doe);
  }

  lemma InMarchYear(days: U64) returns (era: nat, doe: nat, year: nat, doy: nat)
    ensures days + EPOCH_SHIFT == era * DAYS_PER_ERA + doe && doe < DAYS_PER_ERA
    ensures year == 400 * era + YearOf(doe) && YearOf(doe) < 400
    ensures doy <= 365 && doy == doe - DaysBefore(YearOf(doe))
    ensures MarchDay(days + EPOCH_SHIFT) == (year, doy)
  {
    era, doe := (days + EPOCH_SHIFT) / DAYS_PER_ERA, (days + EPOCH_SHIFT) % DAYS_PER_ERA;
    YearOfEra(doe);
    var yoe := YearOf(doe);
    year, doy := 400 * era + yoe, doe - DaysBefore(yoe);
    YearStartInEra(era, yoe);
    YearStartInEra(era, yoe + 1);
    assert 400 * era + (yoe + 1) == year + 1;
    MarchDayIs(days + EPOCH_SHIFT, year);
  }

  /** The closed form is the calendar, for every day count it can be given, and every date
      of the calendar is a real one. */
  lemma ClosedFormIsCalendar(days: U64)
    requires days + EPOCH_SHIFT <= U64_MAX
    ensures DaysToYmd(days) == CivilDate(days)
    ensures IsDate(CivilDate(days))
  {
    var era, doe, year, doy := InMarchYear(days);
    YmdParts(days, era, doe, year, doy);
    CivilByMarch(days, year, doy);
  }
}
