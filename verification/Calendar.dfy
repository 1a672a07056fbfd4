// The days-from-civil arithmetic of adapters/iec61850-rust/src/timefmt.rs, proved against the
// Gregorian calendar itself: leap years, month lengths and sums of them.
module Calendar {
  import opened Octets

  datatype Date = Date(year: int, month: int, day: int)

  // Integer division of Rust, which truncates toward zero.
  function TruncDiv(a: int, b: int): int
    requires b > 0
  {
    if a >= 0 then a / b else -(-a / b)
  }

  // ----- the code

  function CivilFromDays(z0: int): Date {
    var z := z0 + 719468;
    var era := TruncDiv(if z >= 0 then z else z - 146096, 146097);
    CivilOfEraDay(era, z - era * 146097)
  }

  function CivilOfEraDay(era: int, doe: int): Date {
    var yoe := (doe - doe / 1460 + doe / 36524 - doe / 146096) / 365;
    var y := yoe + era * 400;
    var doy := doe - (365 * yoe + yoe / 4 - yoe / 100);
    var mp := (5 * doy + 2) / 153;
    var d := doy - (153 * mp + 2) / 5 + 1;
    var m := if mp < 10 then mp + 3 else mp - 9;
    Date(if m <= 2 then y + 1 else y, m, d)
  }

  // Days since 1 March.
  function DayOfYear(month: int, day: int): int {
    (153 * (if month > 2 then month - 3 else month + 9) + 2) / 5 + day - 1
  }

  function DaysFromCivil(date: Date): int {
    var y := if date.month <= 2 then date.year - 1 else date.year;
    var era := TruncDiv(if y >= 0 then y else y - 399, 400);
    var yoe := y - era * 400;
    var doy := DayOfYear(date.month, date.day);
    var doe := yoe * 365 + yoe / 4 - yoe / 100 + doy;
    era * 146097 + doe - 719468
  }

  // ----- the Gregorian calendar

  predicate IsLeap(y: int) {
    y % 4 == 0 && (y % 100 != 0 || y % 400 == 0)
  }

  function YearLength(y: int): int {
    if IsLeap(y) then 366 else 365
  }

  function MonthLength(y: int, m: int): int {
    if m == 2 then (if IsLeap(y) then 29 else 28)
    else if m == 4 || m == 6 || m == 9 || m == 11 then 30
    else 31
  }

  predicate ValidDate(d: Date) {
    1 <= d.month <= 12 && 1 <= d.day <= MonthLength(d.year, d.month)
  }

  // Days from 1 January 1970 to 1 January of y, as a sum of year lengths.
  function YearStart(y: int): int
    decreases if y >= 1970 then y - 1970 else 1970 - y
  {
    if y == 1970 then 0
    else if y > 1970 then YearStart(y - 1) + YearLength(y - 1)
    else YearStart(y + 1) - YearLength(y)
  }

  // Days of the year y before month m, as a sum of month lengths.
  function MonthStart(y: int, m: int): int
    requires m >= 1
  {
    if m == 1 then 0 else MonthStart(y, m - 1) + MonthLength(y, m - 1)
  }

  function DayCount(d: Date): int
    requires d.month >= 1
  {
    YearStart(d.year) + MonthStart(d.year, d.month) + d.day - 1
  }

  // ----- days_from_civil is the day count

  // Leap years up to and including y, up to a constant.
  function Leaps(y: int): int {
    y / 4 - y / 100 + y / 400
  }

  lemma TruncIsFloor(a: int, b: int)
    requires b > 0
    ensures TruncDiv(if a >= 0 then a else a - (b - 1), b) == a / b
  {
    if a < 0 {
      var n := -(a - (b - 1));
      var q, r := n / b, n % b;
      assert n == q * b + r;
      ModUnique(a, b, -q, b - 1 - r);
    }
  }

  lemma LeapStep(y: int)
    ensures Leaps(y) - Leaps(y - 1) == if IsLeap(y) then 1 else 0
  {
    DivStep(y, 4);
    DivStep(y, 100);
    DivStep(y, 400);
    Multiples(y);
  }

  lemma Multiples(y: int)
    ensures (y % 100 == 0 ==> y % 4 == 0) && (y % 400 == 0 ==> y % 100 == 0)
  {
    if y % 100 == 0 {
      ModUnique(y, 4, 25 * (y / 100), 0);
    }
    if y % 400 == 0 {
      ModUnique(y, 100, 4 * (y / 400), 0);
    }
  }

  lemma DivStep(y: int, k: int)
    requires k > 1
    ensures y / k - (y - 1) / k == if y % k == 0 then 1 else 0
  {
    var q, r := y / k, y % k;
    assert y == q * k + r;
    if r == 0 {
      assert (q - 1) * k == q * k - k;
      ModUnique(y - 1, k, q - 1, k - 1);
    } else {
      ModUnique(y - 1, k, q, r - 1);
    }
  }

  lemma {:induction false} YearStartClosed(y: int)
    ensures YearStart(y) == 365 * (y - 1970) + Leaps(y - 1) - 477
    decreases if y >= 1970 then y - 1970 else 1970 - y
  {
    if y == 1970 {
    } else if y > 1970 {
      YearStartClosed(y - 1);
      LeapStep(y - 1);
    } else {
      YearStartClosed(y + 1);
      LeapStep(y);
    }
  }

  lemma MonthStartClosed(y: int, m: int)
    requires 1 <= m <= 12
    ensures MonthStart(y, m)
            == if m <= 2 then 31 * (m - 1) else (153 * (m - 3) + 2) / 5 + 59 + if IsLeap(y) then 1 else 0
  {
    assert MonthStart(y, 2) == 31;
    assert MonthStart(y, 3) == 31 + MonthLength(y, 2);
    assert MonthStart(y, 4) == MonthStart(y, 3) + 31;
    assert MonthStart(y, 5) == MonthStart(y, 3) + 61;
    assert MonthStart(y, 6) == MonthStart(y, 3) + 92;
    assert MonthStart(y, 7) == MonthStart(y, 3) + 122;
    assert MonthStart(y, 8) == MonthStart(y, 3) + 153;
    assert MonthStart(y, 9) == MonthStart(y, 3) + 184;
    assert MonthStart(y, 10) == MonthStart(y, 3) + 214;
    assert MonthStart(y, 11) == MonthStart(y, 3) + 245;
    assert MonthStart(y, 12) == MonthStart(y, 3) + 275;
  }

  // Years counted from 1 March of year 0.
  lemma EraSum(y: int)
    ensures y / 400 * 146097 + y % 400 * 365 + y % 400 / 4 - y % 400 / 100 == 365 * y + Leaps(y)
  {
    var e, r := y / 400, y % 400;
    assert y == 400 * e + r;
    assert y / 4 == 100 * e + r / 4;
    assert y / 100 == 4 * e + r / 100;
  }

  lemma DaysFromCivilIsDayCount(d: Date)
    requires ValidDate(d)
    ensures DaysFromCivil(d) == DayCount(d)
  {
    var y := if d.month <= 2 then d.year - 1 else d.year;
    TruncIsFloor(y, 400);
    EraSum(y);
    YearStartClosed(d.year);
    MonthStartClosed(d.year, d.month);
    LeapStep(d.year);
  }

  // ----- civil_from_days inverts it

  // A day of a 400-year era in centuries of 36524 days, 4-year spans of 1461 days and years.
  lemma EraDay(doe: int) returns (c: int, f: int, g: int, r: int)
    requires 0 <= doe < 146097
    ensures 0 <= c <= 3 && 0 <= f <= 24 && 0 <= g <= 3 && 0 <= r <= 365
    ensures doe == 36524 * c + 1461 * f + 365 * g + r
    ensures r == 365 ==> g == 3 && (f == 24 ==> c == 3)
  {
    c := if doe / 36524 > 3 then 3 else doe / 36524;
    var inCentury := doe - 36524 * c;
    f := inCentury / 1461;
    var inSpan := inCentury - 1461 * f;
    g := if inSpan / 365 > 3 then 3 else inSpan / 365;
    r := inSpan - 365 * g;
  }

  // The code's year of era is the year of that decomposition.
  lemma YearOfEra(doe: int, c: int, f: int, g: int, r: int)
    requires 0 <= doe < 146097
    requires 0 <= c <= 3 && 0 <= f <= 24 && 0 <= g <= 3 && 0 <= r <= 365
    requires doe == 36524 * c + 1461 * f + 365 * g + r
    requires r == 365 ==> g == 3 && (f == 24 ==> c == 3)
    ensures (doe - doe / 1460 + doe / 36524 - doe / 146096) / 365 == 100 * c + 4 * f + g
  {
    var s := 365 * g + r;
    var e := if 24 * c + f + s >= 1460 then 1 else 0;
    assert doe == 1460 * (25 * c + f) + (24 * c + f + s);
    assert doe / 1460 == 25 * c + f + e;
    var last := if c == 3 && f == 24 && s == 1460 then 1 else 0;
    assert doe / 146096 == last;
    assert doe / 36524 == c + last;
    assert e == 1 ==> g == 3 && r >= 1;
  }

  lemma CenturyDays(c: int, f: int, g: int)
    requires 0 <= c <= 3 && 0 <= f <= 24 && 0 <= g <= 3
    ensures var k := 100 * c + 4 * f + g; 365 * k + k / 4 - k / 100 == 36524 * c + 1461 * f + 365 * g
  {
    var k := 100 * c + 4 * f + g;
    assert k / 4 == 25 * c + f;
    assert k / 100 == c;
  }

  // The month counted from March, and the day in it.
  lemma MonthOfDay(doy: int)
    requires 0 <= doy <= 365
    ensures var mp := (5 * doy + 2) / 153;
            0 <= mp <= 11 && (153 * mp + 2) / 5 <= doy && (mp < 11 ==> doy < (153 * (mp + 1) + 2) / 5)
  {
    var mp := (5 * doy + 2) / 153;
    assert 153 * mp <= 5 * doy + 2 < 153 * (mp + 1);
  }

  lemma MonthSpan(mp: int)
    requires 0 <= mp <= 10
    ensures var m := if mp < 10 then mp + 3 else mp - 9;
            forall y :: MonthLength(y, m) == (153 * (mp + 1) + 2) / 5 - (153 * mp + 2) / 5
  {
  }

  function DateInEra(era: int, c: int, f: int, g: int, doy: int): Date {
    var mp := (5 * doy + 2) / 153;
    var m := if mp < 10 then mp + 3 else mp - 9;
    var y := 100 * c + 4 * f + g + era * 400;
    Date(if m <= 2 then y + 1 else y, m, doy - (153 * mp + 2) / 5 + 1)
  }

  lemma CivilShape(z0: int) returns (era: int, c: int, f: int, g: int, doy: int)
    ensures 0 <= c <= 3 && 0 <= f <= 24 && 0 <= g <= 3 && 0 <= doy <= 365
    ensures z0 + 719468 == era * 146097 + 36524 * c + 1461 * f + 365 * g + doy
    ensures doy == 365 ==> g == 3 && (f == 24 ==> c == 3)
    ensures CivilFromDays(z0) == DateInEra(era, c, f, g, doy)
  {
    var doe;
    era, doe := EraSplit(z0);
    c, f, g, doy := EraDay(doe);
    CivilOfEraDayShape(era, doe, c, f, g, doy);
  }

  lemma EraSplit(z0: int) returns (era: int, doe: int)
    ensures z0 + 719468 == era * 146097 + doe && 0 <= doe < 146097
    ensures CivilFromDays(z0) == CivilOfEraDay(era, doe)
  {
    var z := z0 + 719468;
    TruncIsFloor(z, 146097);
    era, doe := z / 146097, z % 146097;
    assert TruncDiv(if z >= 0 then z else z - 146096, 146097) == era;
    assert z - era * 146097 == doe;
  }

  lemma CivilOfEraDayShape(era: int, doe: int, c: int, f: int, g: int, doy: int)
    requires 0 <= c <= 3 && 0 <= f <= 24 && 0 <= g <= 3 && 0 <= doy <= 365
    requires 0 <= doe < 146097 && doe == 36524 * c + 1461 * f + 365 * g + doy
    requires doy == 365 ==> g == 3 && (f == 24 ==> c == 3)
    ensures CivilOfEraDay(era, doe) == DateInEra(era, c, f, g, doy)
  {
    YearOfEra(doe, c, f, g, doy);
    CenturyDays(c, f, g);
  }

  lemma DateInEraValid(era: int, c: int, f: int, g: int, doy: int)
    requires 0 <= c <= 3 && 0 <= f <= 24 && 0 <= g <= 3 && 0 <= doy <= 365
    requires doy == 365 ==> g == 3 && (f == 24 ==> c == 3)
    ensures ValidDate(DateInEra(era, c, f, g, doy))
  {
    var mp := (5 * doy + 2) / 153;
    MonthOfDay(doy);
    if mp <= 10 {
      MonthSpan(mp);
    } else if doy == 365 {
      LeapAtEnd(c, f, g, era);
    }
  }

  lemma DateInEraDays(era: int, c: int, f: int, g: int, doy: int)
    requires 0 <= c <= 3 && 0 <= f <= 24 && 0 <= g <= 3 && 0 <= doy <= 365
    ensures DaysFromCivil(DateInEra(era, c, f, g, doy)) == era * 146097 + 36524 * c + 1461 * f + 365 * g + doy - 719468
  {
    var k := 100 * c + 4 * f + g;
    MonthOfDay(doy);
    CenturyDays(c, f, g);
    TruncIsFloor(k + era * 400, 400);
    ModUnique(k + era * 400, 400, era, k);
  }

  // Every day number is a date of the calendar, and counting its days gives the number back.
  lemma CivilOfDays(z0: int)
    ensures ValidDate(CivilFromDays(z0)) && DayCount(CivilFromDays(z0)) == z0
    ensures DaysFromCivil(CivilFromDays(z0)) == z0
  {
    var era, c, f, g, doy := CivilShape(z0);
    DateInEraValid(era, c, f, g, doy);
    DateInEraDays(era, c, f, g, doy);
    DaysFromCivilIsDayCount(CivilFromDays(z0));
  }

  lemma LeapAtEnd(c: int, f: int, g: int, era: int)
    requires 0 <= c <= 3 && 0 <= f <= 24 && g == 3 && (f == 24 ==> c == 3)
    ensures IsLeap(100 * c + 4 * f + g + era * 400 + 1)
  {
    var y := 100 * c + 4 * f + 4 + era * 400;
    assert y == 4 * (25 * c + f + 1 + 100 * era);
    if f < 24 {
      assert y == 100 * (c + 4 * era) + (4 * f + 4);
    } else {
      assert y == 400 * (era + 1);
    }
  }

  // ----- one date per day number

  lemma {:induction false} YearStartMonotone(a: int, b: int)
    requires a < b
    ensures YearStart(a) + YearLength(a) <= YearStart(b)
    decreases b - a
  {
    assert YearStart(a + 1) == YearStart(a) + YearLength(a);
    if a + 1 < b {
      YearStartMonotone(a + 1, b);
    }
  }

  lemma {:induction false} MonthStartMonotone(y: int, m: int, n: int)
    requires 1 <= m < n
    ensures MonthStart(y, m) + MonthLength(y, m) <= MonthStart(y, n)
    decreases n - m
  {
    if m + 1 < n {
      MonthStartMonotone(y, m + 1, n);
    }
  }

  lemma DayWithinYear(d: Date)
    requires ValidDate(d)
    ensures YearStart(d.year) <= DayCount(d) < YearStart(d.year) + YearLength(d.year)
  {
    MonthStartClosed(d.year, d.month);
  }

  lemma DayCountInjective(a: Date, b: Date)
    requires ValidDate(a) && ValidDate(b) && DayCount(a) == DayCount(b)
    ensures a == b
  {
    DayWithinYear(a);
    DayWithinYear(b);
    if a.year < b.year {
      YearStartMonotone(a.year, b.year);
    } else if b.year < a.year {
      YearStartMonotone(b.year, a.year);
    } else if a.month < b.month {
      MonthStartMonotone(a.year, a.month, b.month);
    } else if b.month < a.month {
      MonthStartMonotone(a.year, b.month, a.month);
    }
  }

  // Every date of the calendar comes back from its day number.
  lemma DaysOfCivil(d: Date)
    requires ValidDate(d)
    ensures CivilFromDays(DaysFromCivil(d)) == d
  {
    DaysFromCivilIsDayCount(d);
    CivilOfDays(DayCount(d));
    DayCountInjective(d, CivilFromDays(DayCount(d)));
  }

  // Exactly the valid dates survive the trip through the day number.
  lemma CivilRoundTripExact(d: Date)
    ensures CivilFromDays(DaysFromCivil(d)) == d <==> ValidDate(d)
  {
    if ValidDate(d) {
      DaysOfCivil(d);
    } else {
      CivilOfDays(DaysFromCivil(d));
    }
  }

  // ----- machine words

  // The operands and results of days_from_civil that live in a u64 or an i64.
  function Words(date: Date): (r: (int, int, int, int, int, int))
  {
    var y := if date.month <= 2 then date.year - 1 else date.year;
    var low := if y >= 0 then y else y - 399;
    var yoe := y - TruncDiv(low, 400) * 400;
    var doy := DayOfYear(date.month, date.day);
    (low, TruncDiv(low, 400) * 146097, yoe, doy, yoe * 365 + yoe / 4 - yoe / 100 + doy, y)
  }

  // Some step leaves its word, which an overflow-checked build refuses.
  predicate Traps(date: Date) {
    var (low, eraDays, yoe, doy, doe, y) := Words(date);
    !(IsI64(y) && IsI64(low) && IsI64(eraDays) && IsU64(yoe) && IsU64(doy) && IsU64(doe)
      && IsI64(eraDays + doe) && IsI64(DaysFromCivil(date)))
  }

  // The same steps in a build that wraps.
  function WrappedDays(date: Date): int {
    var y := I64(if date.month <= 2 then date.year - 1 else date.year);
    var era := TruncDiv(I64(if y >= 0 then y else y - 399), 400);
    WrappedSum(era * 146097, U64(y - era * 400), DayOfYear(date.month, date.day))
  }

  function WrappedSum(eraDays: int, yoe: int, doy: int): int {
    var doe := U64(yoe * 365 + yoe / 4 - yoe / 100 + U64(doy));
    I64(I64(eraDays) + I64(doe) - 719468)
  }

  // A 64-bit year and a 32-bit month and day.
  predicate InWords(date: Date) {
    IsI64(date.year) && 0 <= date.month < TWO32 && 0 <= date.day < TWO32
  }

  // The first day of the 400 years of the date, and the day of the date counted from 1 March of year 0 and
  // from 1970, all fit an i64.
  predicate DaysFit(date: Date) {
    && -TWO63 <= (if date.month <= 2 then date.year - 1 else date.year) / 400 * 146097
    && DaysFromCivil(date) + 719468 < TWO63
    && -TWO63 <= DaysFromCivil(date)
  }

  lemma YearOfEraRange(y: int)
    ensures var era := TruncDiv(if y >= 0 then y else y - 399, 400); era == y / 400 && 0 <= y - era * 400 < 400
  {
    TruncIsFloor(y, 400);
  }

  lemma DayOfYearRange(month: int, day: int)
    requires 0 <= month < TWO32 && 0 <= day < TWO32
    ensures -1 <= DayOfYear(month, day) < 0x100_0000_0000
    ensures DayOfYear(month, day) < 0 <==> month == 3 && day == 0
  {
  }

  // The parts of the day number.
  lemma Parts(date: Date) returns (y: int, era: int, yoe: int, doy: int)
    requires InWords(date)
    ensures y == (if date.month <= 2 then date.year - 1 else date.year)
    ensures era == TruncDiv(if y >= 0 then y else y - 399, 400) && era == y / 400
    ensures yoe == y - era * 400 && 0 <= yoe < 400
    ensures doy == DayOfYear(date.month, date.day) && -1 <= doy < 0x100_0000_0000
    ensures doy < 0 <==> date.month == 3 && date.day == 0
    ensures DaysFromCivil(date) == era * 146097 + (yoe * 365 + yoe / 4 - yoe / 100 + doy) - 719468
  {
    y := if date.month <= 2 then date.year - 1 else date.year;
    era := TruncDiv(if y >= 0 then y else y - 399, 400);
    yoe, doy := y - era * 400, DayOfYear(date.month, date.day);
    YearOfEraRange(y);
    DayOfYearRange(date.month, date.day);
  }

  // Far more than the days of an era with the largest day of a month.
  const SLACK: int := 0x200_0000_0000

  lemma EraOfDays(y: int, era: int, yoe: int)
    requires y == era * 400 + yoe && 0 <= yoe < 400 && -TWO63 - SLACK <= era * 146097 <= TWO63 + SLACK
    ensures IsI64(y) && IsI64(y - 399)
  {
  }

  // days_from_civil leaves a word exactly on day 0 of March, where the day of the year is -1, and where the day
  // number does not fit.
  lemma TrapsExactly(date: Date)
    requires InWords(date)
    ensures Traps(date) <==> (date.month == 3 && date.day == 0) || !DaysFit(date)
  {
    var y, era, yoe, doy := Parts(date);
    var eraDays, base := era * 146097, yoe * 365 + yoe / 4 - yoe / 100;
    if -TWO63 <= eraDays < TWO63 {
      EraOfDays(y, era, yoe);
    }
    PartsInWords(eraDays, base, doy);
  }

  lemma PartsInWords(eraDays: int, base: int, doy: int)
    requires 0 <= base < SLACK && -1 <= doy < SLACK
    ensures IsI64(eraDays) && IsU64(doy) && IsU64(base + doy) && IsI64(eraDays + (base + doy))
            && IsI64(eraDays + (base + doy) - 719468)
            <==> doy >= 0 && -TWO63 <= eraDays && eraDays + (base + doy) < TWO63
                 && -TWO63 <= eraDays + (base + doy) - 719468
  {
  }

  // For years up to a million, and so for every text that is read, the day number fits.
  lemma FourDigitsFit(date: Date)
    requires InWords(date) && -1_000_000 <= date.year <= 1_000_000
    ensures DaysFit(date) && IsI64(DaysFromCivil(date))
  {
    var y, era, yoe, doy := Parts(date);
  }

  // A wrapping build computes the day number exactly when that fits an i64, day 0 of March included.
  lemma WrappedIsExact(date: Date)
    requires InWords(date)
    ensures WrappedDays(date) == DaysFromCivil(date) <==> IsI64(DaysFromCivil(date))
  {
    var y, era, yoe, doy := Parts(date);
    if IsI64(DaysFromCivil(date)) {
      EraOfDays(y, era, yoe);
      WrappedEra(date, y, era);
      WrappedSumExact(era * 146097, yoe, doy);
    }
  }

  lemma WrappedEra(date: Date, y: int, era: int)
    requires y == (if date.month <= 2 then date.year - 1 else date.year) && IsI64(y) && IsI64(y - 399)
    requires era == TruncDiv(if y >= 0 then y else y - 399, 400)
    ensures WrappedDays(date) == WrappedSum(era * 146097, y - era * 400, DayOfYear(date.month, date.day))
  {
    YearOfEraRange(y);
  }

  lemma WrappedSumExact(eraDays: int, yoe: int, doy: int)
    requires 0 <= yoe < 400 && -1 <= doy < 0x100_0000_0000
    requires IsI64(eraDays + (yoe * 365 + yoe / 4 - yoe / 100 + doy) - 719468)
    ensures WrappedSum(eraDays, yoe, doy) == eraDays + (yoe * 365 + yoe / 4 - yoe / 100 + doy) - 719468
  {
    var doe := yoe * 365 + yoe / 4 - yoe / 100 + doy;
    WrapDoe(yoe * 365 + yoe / 4 - yoe / 100, doy);
    WrapAdd(eraDays, doe - 719468);
  }

  // Wrapping first does not change a sum that fits.
  lemma WrapAdd(a: int, x: int)
    requires IsI64(a + x)
    ensures I64(I64(a) + x) == a + x
  {
    ModShift(I64(a) + x + TWO63, a + x + TWO63, TWO64, -((a + TWO63) / TWO64));
  }

  lemma WrapDoe(base: int, doy: int)
    requires 0 <= base < 0x100_0000 && -1 <= doy < 0x100_0000_0000
    ensures I64(U64(base + U64(doy))) == base + doy
  {
    if doy < 0 {
      ModUnique(doy, TWO64, -1, TWO64 - 1);
      if base > 0 {
        ModUnique(base + (TWO64 - 1), TWO64, 1, base - 1);
      } else {
        ModUnique(TWO64 - 1 + TWO63, TWO64, 1, TWO63 - 1);
      }
    }
  }
}
