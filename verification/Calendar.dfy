/** `civil_from_days`: a closed-form Gregorian conversion, against a calendar that only knows how to turn one day
    into the next. */
module Calendar {

  datatype Date = Date(year: int, month: int, day: int)

  // ---------------------------------------------------------------- the reference calendar

  /** The leap rule of Appendix C of RFC 3339. */
  predicate IsLeap(year: int) {
    year % 4 == 0 && (year % 100 != 0 || year % 400 == 0)
  }

  /** The month lengths of section 5.7 of RFC 3339. */
  function DaysInMonth(year: int, month: int): int
    requires 1 <= month <= 12
  {
    if month == 2 then (if IsLeap(year) then 29 else 28)
    else if month in {4, 6, 9, 11} then 30
    else 31
  }

  predicate ValidDate(d: Date) {
    1 <= d.month <= 12 && 1 <= d.day <= DaysInMonth(d.year, d.month)
  }

  function NextDay(d: Date): (n: Date)
    requires ValidDate(d)
    ensures ValidDate(n)
  {
    if d.day < DaysInMonth(d.year, d.month) then d.(day := d.day + 1)
    else if d.month < 12 then Date(d.year, d.month + 1, 1)
    else Date(d.year + 1, 1, 1)
  }

  const EPOCH := Date(1970, 1, 1)

  /** `n` applications of `NextDay` to 1970-01-01. */
  function DaysAfterEpoch(n: nat): (d: Date)
    ensures ValidDate(d)
  {
    if n == 0 then EPOCH else NextDay(DaysAfterEpoch(n - 1))
  }

  // ---------------------------------------------------------------- the code

  /** Rust's `/` on `i64` truncates toward zero. */
  function TruncDiv(a: int, b: int): int
    requires b > 0
  {
    if a >= 0 then a / b else -(-a / b)
  }

  function CivilFromDays(days: int): Date {
    var z := days + 719_468;
    var era := TruncDiv(if z >= 0 then z else z - 146_096, 146_097);
    DateInEra(era, z - era * 146_097)
  }

  /** The rest of `civil_from_days`, from the 400-year era and the day within it. */
  function DateInEra(era: int, doe: int): Date {
    var yoe := TruncDiv(doe - TruncDiv(doe, 1_460) + TruncDiv(doe, 36_524) - TruncDiv(doe, 146_096), 365);
    var y := yoe + era * 400;
    var doy := doe - (365 * yoe + TruncDiv(yoe, 4) - TruncDiv(yoe, 100));
    var mp := TruncDiv(5 * doy + 2, 153);
    var day := doy - TruncDiv(153 * mp + 2, 5) + 1;
    var month := mp + if mp < 10 then 3 else -9;
    var year := y + if month <= 2 then 1 else 0;
    Date(year, month, day)
  }

  // ---------------------------------------------------------------- years that start in March

  /** Days from 0000-03-01 to March 1 of year `y`. */
  function MarchDays(y: int): int {
    365 * y + y / 4 - y / 100 + y / 400
  }

  /** Day `doy` of the year that starts on March 1 of `y`. */
  function FromMarch(y: int, doy: int): Date {
    var mp := (5 * doy + 2) / 153;
    var month := if mp < 10 then mp + 3 else mp - 9;
    Date(if month <= 2 then y + 1 else y, month, doy - (153 * mp + 2) / 5 + 1)
  }

  function MarchYearLength(y: int): int {
    if IsLeap(y + 1) then 366 else 365
  }

  lemma MarchYearLengthIs(y: int)
    ensures MarchDays(y + 1) == MarchDays(y) + MarchYearLength(y)
  {
    var k := y + 1;
    assert k / 4 - (k - 1) / 4 == if k % 4 == 0 then 1 else 0;
    assert k / 100 - (k - 1) / 100 == if k % 100 == 0 then 1 else 0;
    assert k / 400 - (k - 1) / 400 == if k % 400 == 0 then 1 else 0;
    assert k % 100 == 0 ==> k % 4 == 0;
    assert k % 400 == 0 ==> k % 100 == 0;
  }

  lemma {:induction false} MarchDaysIncreasing(y1: int, y2: int)
    requires y1 < y2
    ensures MarchDays(y1) + 365 <= MarchDays(y2)
    decreases y2 - y1
  {
    MarchYearLengthIs(y2 - 1);
    if y1 < y2 - 1 {
      MarchDaysIncreasing(y1, y2 - 1);
    }
  }

  /** The day of a 400-year era, cut into centuries, four-year blocks, years and days. */
  lemma EraParts(doe: int) returns (c: int, b: int, k: int, doy: int)
    requires 0 <= doe < 146_097
    ensures 0 <= c < 4 && 0 <= b < 25 && 0 <= k < 4
    ensures doe == 36_524 * c + 1_461 * b + 365 * k + doy
    ensures 0 <= doy < if k == 3 && (b < 24 || c == 3) then 366 else 365
  {
    c := if doe / 36_524 < 4 then doe / 36_524 else 3;
    var inCentury := doe - 36_524 * c;
    b := inCentury / 1_461;
    var inBlock := inCentury - 1_461 * b;
    k := if inBlock / 365 < 4 then inBlock / 365 else 3;
    doy := inBlock - 365 * k;
  }

  /** The code's year-of-era formula finds the right year. */
  lemma YearOfEra(doe: int)
    requires 0 <= doe < 146_097
    ensures var yoe := (doe - doe / 1_460 + doe / 36_524 - doe / 146_096) / 365;
            && 0 <= yoe < 400
            && 0 <= doe - (365 * yoe + yoe / 4 - yoe / 100) < MarchYearLength(yoe)
  {
    var c, b, k, doy := EraParts(doe);
    var t := if 24 * c + b + 365 * k + doy >= 1_460 then 1 else 0;
    assert doe / 1_460 == 25 * c + b + t;
    var u := if b == 24 && k == 3 && doy == 365 then 1 else 0;
    assert doe / 36_524 == c + u;
    assert doe / 146_096 == u;
    var yoe := 100 * c + 4 * b + k;
    assert doe - doe / 1_460 + doe / 36_524 - doe / 146_096 == 365 * yoe + (doy - t);
    assert (365 * yoe + (doy - t)) / 365 == yoe;
    assert yoe / 4 == 25 * c + b && yoe / 100 == c;
    LeapInEra(c, b, k);
  }

  lemma LeapInEra(c: int, b: int, k: int)
    requires 0 <= c < 4 && 0 <= b < 25 && 0 <= k < 4
    ensures IsLeap(100 * c + 4 * b + k + 1) <==> k == 3 && (b < 24 || c == 3)
  {
    var y := 100 * c + 4 * b + k + 1;
    assert y % 4 == (k + 1) % 4;
    assert y % 100 == (4 * b + k + 1) % 100;
  }

  lemma Shift4(a: int, era: int)
    ensures (a + era * 400) / 4 == a / 4 + era * 100 && (a + era * 400) % 4 == a % 4
  {
  }

  lemma Shift100(a: int, era: int)
    ensures (a + era * 400) / 100 == a / 100 + era * 4 && (a + era * 400) % 100 == a % 100
  {
  }

  lemma Shift400(a: int, era: int)
    ensures (a + era * 400) / 400 == a / 400 + era && (a + era * 400) % 400 == a % 400
  {
  }

  /** Shifting by whole eras of 400 years and 146097 days. */
  lemma EraShift(yoe: int, era: int)
    requires 0 <= yoe < 400
    ensures MarchDays(yoe + era * 400) == 146_097 * era + (365 * yoe + yoe / 4 - yoe / 100)
    ensures MarchYearLength(yoe + era * 400) == MarchYearLength(yoe)
  {
    Shift4(yoe, era);
    Shift100(yoe, era);
    Shift400(yoe, era);
    LeapShift(yoe + 1, era);
    assert yoe + era * 400 + 1 == yoe + 1 + era * 400;
  }

  lemma LeapShift(y: int, era: int)
    ensures IsLeap(y + era * 400) == IsLeap(y)
  {
    Shift4(y, era);
    Shift100(y, era);
    Shift400(y, era);
  }

  lemma EraFloors(z: int)
    ensures TruncDiv(if z >= 0 then z else z - 146_096, 146_097) == z / 146_097
  {
  }

  /** Within an era the code's divisions have non-negative operands, so truncation is plain division. */
  lemma DateInEraIsMarch(era: int, doe: int)
    requires 0 <= doe < 146_097
    ensures var yoe := (doe - doe / 1_460 + doe / 36_524 - doe / 146_096) / 365;
            DateInEra(era, doe) == FromMarch(yoe + era * 400, doe - (365 * yoe + yoe / 4 - yoe / 100))
  {
    YearOfEra(doe);
    var yoe := (doe - doe / 1_460 + doe / 36_524 - doe / 146_096) / 365;
    assert doe - doe / 1_460 + doe / 36_524 - doe / 146_096 >= 0;
    MonthPositive(doe - (365 * yoe + yoe / 4 - yoe / 100));
  }

  lemma MonthPositive(doy: int)
    requires 0 <= doy < 366
    ensures var mp := (5 * doy + 2) / 153; mp >= 0 && (153 * mp + 2) / 5 >= 0
  {
  }

  lemma EraDayIsMarch(era: int, doe: int) returns (y: int, doy: int)
    requires 0 <= doe < 146_097
    ensures 146_097 * era + doe == MarchDays(y) + doy && 0 <= doy < MarchYearLength(y)
    ensures DateInEra(era, doe) == FromMarch(y, doy)
  {
    YearOfEra(doe);
    DateInEraIsMarch(era, doe);
    var yoe := (doe - doe / 1_460 + doe / 36_524 - doe / 146_096) / 365;
    y, doy := yoe + era * 400, doe - (365 * yoe + yoe / 4 - yoe / 100);
    EraShift(yoe, era);
  }

  lemma CivilSplits(days: int) returns (era: int, doe: int)
    ensures days + 719_468 == 146_097 * era + doe && 0 <= doe < 146_097
    ensures CivilFromDays(days) == DateInEra(era, doe)
  {
    var z := days + 719_468;
    EraFloors(z);
    era, doe := z / 146_097, z % 146_097;
    assert z - era * 146_097 == doe;
  }

  /** The closed form is the March-year form of a uniquely determined year and day. */
  lemma CivilIsMarch(days: int) returns (y: int, doy: int)
    ensures days + 719_468 == MarchDays(y) + doy && 0 <= doy < MarchYearLength(y)
    ensures CivilFromDays(days) == FromMarch(y, doy)
  {
    var era, doe := CivilSplits(days);
    y, doy := EraDayIsMarch(era, doe);
  }

  lemma MarchUnique(y1: int, d1: int, y2: int, d2: int)
    requires 0 <= d1 < MarchYearLength(y1) && 0 <= d2 < MarchYearLength(y2)
    requires MarchDays(y1) + d1 == MarchDays(y2) + d2
    ensures y1 == y2 && d1 == d2
  {
    MarchYearLengthIs(y1);
    MarchYearLengthIs(y2);
    if y1 + 1 < y2 {
      MarchDaysIncreasing(y1 + 1, y2);
    } else if y2 + 1 < y1 {
      MarchDaysIncreasing(y2 + 1, y1);
    }
  }

  /** Where each month of the March year starts. */
  function MonthStart(mp: int): int {
    (153 * mp + 2) / 5
  }

  lemma MonthOf(doy: int) returns (mp: int)
    requires 0 <= doy < 366
    ensures mp == (5 * doy + 2) / 153 && 0 <= mp < 12
    ensures MonthStart(mp) <= doy < MonthStart(mp + 1)
  {
    mp := (5 * doy + 2) / 153;
  }

  /** Within a March year and across its end, the next day is `NextDay`. */
  lemma MarchNextDay(y: int, doy: int)
    requires 0 <= doy < MarchYearLength(y)
    ensures ValidDate(FromMarch(y, doy))
    ensures NextDay(FromMarch(y, doy))
         == if doy + 1 < MarchYearLength(y) then FromMarch(y, doy + 1) else FromMarch(y + 1, 0)
  {
    var mp := MonthOf(doy);
    MonthLengths(mp);
    if doy + 1 < 366 {
      var mp' := MonthOf(doy + 1);
    }
  }

  lemma MonthLengths(mp: int)
    requires 0 <= mp < 12
    ensures MonthStart(mp + 1) - MonthStart(mp) == if mp in {1, 3, 6, 8, 11} then 30 else 31
    ensures MonthStart(11) == 337 && MonthStart(12) == 367
  {
  }

  // ---------------------------------------------------------------- the theorems

  /** One more day is the next day, for every integer day, before and after the epoch. */
  lemma CivilNextDay(days: int)
    ensures ValidDate(CivilFromDays(days))
    ensures CivilFromDays(days + 1) == NextDay(CivilFromDays(days))
  {
    var y, doy := CivilIsMarch(days);
    var y', doy' := CivilIsMarch(days + 1);
    MarchNextDay(y, doy);
    MarchYearLengthIs(y);
    if doy + 1 < MarchYearLength(y) {
      MarchUnique(y, doy + 1, y', doy');
    } else {
      MarchUnique(y + 1, 0, y', doy');
    }
  }

  /** Any day numbering that starts at the epoch and moves by `NextDay` is `DaysAfterEpoch`. */
  lemma {:induction false} OnlyNumbering(f: int -> Date, n: nat)
    requires f(0) == EPOCH && forall k :: 0 <= k < n ==> ValidDate(f(k)) && f(k + 1) == NextDay(f(k))
    ensures f(n) == DaysAfterEpoch(n)
  {
    if n > 0 {
      OnlyNumbering(f, n - 1);
      assert f(n - 1 + 1) == NextDay(f(n - 1));
    }
  }

  /** `civil_from_days(n)` is 1970-01-01 moved forward one day at a time, n times. */
  lemma CivilCountsDays(n: nat)
    ensures CivilFromDays(n) == DaysAfterEpoch(n)
  {
    var f: int -> Date := CivilFromDays;
    forall k | 0 <= k < n ensures ValidDate(f(k)) && f(k + 1) == NextDay(f(k)) {
      CivilNextDay(k);
    }
    OnlyNumbering(f, n);
  }

  // ---------------------------------------------------------------- counting back

  function DaysInYear(year: int): int {
    if IsLeap(year) then 366 else 365
  }

  /** Days from 1970-01-01 to January 1 of `year`, counted year by year in either direction. */
  function DaysBeforeYear(year: int): int
    decreases if year >= 1970 then year - 1970 else 1970 - year
  {
    if year == 1970 then 0
    else if year > 1970 then DaysBeforeYear(year - 1) + DaysInYear(year - 1)
    else DaysBeforeYear(year + 1) - DaysInYear(year)
  }

  function DaysBeforeMonth(year: int, month: int): int
    requires 1 <= month <= 13
  {
    if month == 1 then 0 else DaysBeforeMonth(year, month - 1) + DaysInMonth(year, month - 1)
  }

  /** The day count of a date, by recursion over years and months. */
  function DayCount(d: Date): int
    requires ValidDate(d)
  {
    DaysBeforeYear(d.year) + DaysBeforeMonth(d.year, d.month) + d.day - 1
  }

  predicate EarlierDate(a: Date, b: Date) {
    a.year < b.year || (a.year == b.year && (a.month < b.month || (a.month == b.month && a.day < b.day)))
  }

  lemma MonthsFillYear(year: int)
    ensures DaysBeforeMonth(year, 13) == DaysInYear(year)
  {
    assert DaysBeforeMonth(year, 2) == 31;
    assert DaysBeforeMonth(year, 3) == if IsLeap(year) then 60 else 59;
    assert DaysBeforeMonth(year, 5) == DaysBeforeMonth(year, 3) + 61;
    assert DaysBeforeMonth(year, 7) == DaysBeforeMonth(year, 5) + 61;
    assert DaysBeforeMonth(year, 9) == DaysBeforeMonth(year, 7) + 62;
    assert DaysBeforeMonth(year, 11) == DaysBeforeMonth(year, 9) + 61;
  }

  lemma YearAfterYear(year: int)
    ensures DaysBeforeYear(year + 1) == DaysBeforeYear(year) + DaysInYear(year)
  {
  }

  lemma NextDayCount(d: Date)
    requires ValidDate(d)
    ensures DayCount(NextDay(d)) == DayCount(d) + 1
  {
    if d.month == 12 {
      MonthsFillYear(d.year);
      YearAfterYear(d.year);
    }
  }

  lemma {:induction false} MonthsIncrease(year: int, m1: int, m2: int)
    requires 1 <= m1 < m2 <= 13
    ensures DaysBeforeMonth(year, m1) + DaysInMonth(year, m1) <= DaysBeforeMonth(year, m2)
    decreases m2
  {
    if m1 < m2 - 1 {
      MonthsIncrease(year, m1, m2 - 1);
    }
  }

  lemma {:induction false} YearsIncrease(y1: int, y2: int)
    requires y1 < y2
    ensures DaysBeforeYear(y1) + DaysInYear(y1) <= DaysBeforeYear(y2)
    decreases y2 - y1
  {
    YearAfterYear(y2 - 1);
    if y1 < y2 - 1 {
      YearsIncrease(y1, y2 - 1);
    }
  }

  lemma WithinYear(d: Date)
    requires ValidDate(d)
    ensures DaysBeforeYear(d.year) <= DayCount(d) < DaysBeforeYear(d.year) + DaysInYear(d.year)
  {
    MonthsFillYear(d.year);
    MonthsIncrease(d.year, d.month, 13);
    if d.month > 1 {
      MonthsIncrease(d.year, 1, d.month);
    }
  }

  lemma DayCountIncreasing(a: Date, b: Date)
    requires ValidDate(a) && ValidDate(b)
    ensures EarlierDate(a, b) <==> DayCount(a) < DayCount(b)
  {
    WithinYear(a);
    WithinYear(b);
    if a.year < b.year {
      YearsIncrease(a.year, b.year);
    } else if b.year < a.year {
      YearsIncrease(b.year, a.year);
    } else if a.month < b.month {
      MonthsIncrease(a.year, a.month, b.month);
    } else if b.month < a.month {
      MonthsIncrease(a.year, b.month, a.month);
    }
  }

  /** A day numbering that moves with the calendar counts with it, in both directions from the epoch. */
  lemma {:induction false} CountOfNumbering(f: int -> Date, days: int)
    requires f(0) == EPOCH && forall k :: ValidDate(f(k)) && f(k + 1) == NextDay(f(k))
    ensures DayCount(f(days)) == days
    decreases if days >= 0 then days else -days
  {
    if days > 0 {
      CountOfNumbering(f, days - 1);
      assert f(days - 1 + 1) == NextDay(f(days - 1));
      NextDayCount(f(days - 1));
    } else if days < 0 {
      CountOfNumbering(f, days + 1);
      NextDayCount(f(days));
    } else {
      assert DayCount(EPOCH) == 0;
    }
  }

  lemma CountOfCivil(days: int)
    ensures ValidDate(CivilFromDays(days)) && DayCount(CivilFromDays(days)) == days
  {
    var f: int -> Date := CivilFromDays;
    forall k ensures ValidDate(f(k)) && f(k + 1) == NextDay(f(k)) {
      CivilNextDay(k);
    }
    CivilCountsDays(0);
    CountOfNumbering(f, days);
  }

  /** `civil_from_days` and the recursive day count are inverse, over all days and all valid dates. */
  lemma CivilOfCount(d: Date)
    requires ValidDate(d)
    ensures CivilFromDays(DayCount(d)) == d
  {
    var n := DayCount(d);
    CountOfCivil(n);
    var c := CivilFromDays(n);
    DayCountIncreasing(c, d);
    DayCountIncreasing(d, c);
  }

  /** Later days are later dates. */
  lemma CivilIncreasing(m: int, n: int)
    ensures EarlierDate(CivilFromDays(m), CivilFromDays(n)) <==> m < n
  {
    CountOfCivil(m);
    CountOfCivil(n);
    DayCountIncreasing(CivilFromDays(m), CivilFromDays(n));
  }
}
