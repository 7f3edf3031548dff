/** `iso8601_utc`: the printed UTC time, its grammar, and its order. */
module Iso8601 {
  import opened Text
  import opened Calendar

  const NANOS_PER_SECOND := 1_000_000_000
  const SECONDS_PER_DAY := 86_400

  // ---------------------------------------------------------------- the code

  /** `{n:0w}`: at least `w` digits, zero-filled. */
  function Pad(n: nat, w: nat): string {
    Zeros(if |Decimal(n)| < w then w - |Decimal(n)| else 0) + Decimal(n)
  }

  function Zeros(k: nat): string {
    seq(k, _ => '0')
  }

  /** Whole seconds since the epoch of a time in nanoseconds; times before the epoch count as the epoch. */
  function SecondsOf(nanos: int): nat {
    if nanos < 0 then 0 else nanos / NANOS_PER_SECOND
  }

  function Year(nanos: int): (y: nat)
  {
    YearsAreNatural(SecondsOf(nanos) / SECONDS_PER_DAY);
    CivilFromDays(SecondsOf(nanos) / SECONDS_PER_DAY).year
  }

  function Iso8601Utc(nanos: int): string {
    var seconds := SecondsOf(nanos);
    var days, secondOfDay := seconds / SECONDS_PER_DAY, seconds % SECONDS_PER_DAY;
    YearsAreNatural(days);
    var date := CivilFromDays(days);
    Printed(date.year, date.month, date.day,
            secondOfDay / 3_600, (secondOfDay % 3_600) / 60, secondOfDay % 60)
  }

  function Printed(year: nat, month: nat, day: nat, hour: nat, minute: nat, second: nat): string {
    Pad(year, 4) + ("-" + (Pad(month, 2) + ("-" + (Pad(day, 2) + ("T" +
      (Pad(hour, 2) + (":" + (Pad(minute, 2) + (":" + (Pad(second, 2) + "Z"))))))))))
  }

  lemma YearsAreNatural(days: nat)
    ensures CivilFromDays(days).year >= 1970
    ensures ValidDate(CivilFromDays(days))
  {
    CountOfCivil(days);
    if CivilFromDays(days).year < 1970 {
      YearsIncrease(CivilFromDays(days).year, 1970);
      WithinYear(CivilFromDays(days));
    }
  }

  // ---------------------------------------------------------------- lexicographic order

  predicate Less(a: string, b: string) {
    b != [] && (a == [] || a[0] < b[0] || (a[0] == b[0] && Less(a[1..], b[1..])))
  }

  lemma {:induction false} LessConcat(a: string, b: string, s: string, t: string)
    requires |a| == |b|
    ensures Less(a + s, b + t) <==> Less(a, b) || (a == b && Less(s, t))
  {
    if a == [] {
      assert a + s == s && b + t == t;
    } else {
      LessConcat(a[1..], b[1..], s, t);
      assert (a + s)[1..] == a[1..] + s && (b + t)[1..] == b[1..] + t;
      assert a == [a[0]] + a[1..] && b == [b[0]] + b[1..];
    }
  }

  /** Equally long digit strings compare as the numbers they spell. */
  lemma {:induction false} DigitsCompare(a: string, b: string)
    requires |a| == |b| && AllDigits(a) && AllDigits(b)
    ensures Less(a, b) <==> DecimalValue(a) < DecimalValue(b)
    ensures a == b <==> DecimalValue(a) == DecimalValue(b)
  {
    if a != [] {
      var n := |a| - 1;
      assert a == a[..n] + [a[n]] && b == b[..n] + [b[n]];
      DigitsCompare(a[..n], b[..n]);
      LessConcat(a[..n], b[..n], [a[n]], [b[n]]);
      assert Less([a[n]], [b[n]]) <==> a[n] < b[n];
    }
  }

  function Pow10(w: nat): nat {
    if w == 0 then 1 else 10 * Pow10(w - 1)
  }

  lemma {:induction false} DecimalLength(n: nat, w: nat)
    requires n < Pow10(w) && w > 0
    ensures |Decimal(n)| <= w
    decreases w
  {
    if n >= 10 {
      DecimalLength(n / 10, w - 1);
    }
  }

  lemma {:induction false} LeadingZeros(k: nat, s: string)
    requires AllDigits(s)
    ensures AllDigits(Zeros(k) + s) && DecimalValue(Zeros(k) + s) == DecimalValue(s)
    decreases |s|, k
  {
    var z := Zeros(k) + s;
    if s != [] {
      LeadingZeros(k, s[..|s| - 1]);
      assert z[..|z| - 1] == Zeros(k) + s[..|s| - 1];
    } else if k > 0 {
      LeadingZeros(k - 1, s);
      assert z[..|z| - 1] == Zeros(k - 1) + s;
    }
  }

  lemma PadIs(n: nat, w: nat)
    requires n < Pow10(w) && w > 0
    ensures |Pad(n, w)| == w && AllDigits(Pad(n, w)) && DecimalValue(Pad(n, w)) == n
  {
    DecimalLength(n, w);
    DecimalRoundTrip(n);
    LeadingZeros(w - |Decimal(n)|, Decimal(n));
  }

  /** A fixed-width number field compares first, and what follows decides ties. */
  lemma FieldCompare(m: nat, n: nat, w: nat, sep: string, s: string, t: string)
    requires m < Pow10(w) && n < Pow10(w) && w > 0
    ensures Less(Pad(m, w) + (sep + s), Pad(n, w) + (sep + t)) <==> m < n || (m == n && Less(s, t))
  {
    PadIs(m, w);
    PadIs(n, w);
    DigitsCompare(Pad(m, w), Pad(n, w));
    LessConcat(Pad(m, w), Pad(n, w), sep + s, sep + t);
    LessConcat(sep, sep, s, t);
    NotLess(sep);
  }

  lemma {:induction false} NotLess(s: string)
    ensures !Less(s, s)
  {
    if s != [] {
      NotLess(s[1..]);
    }
  }

  // ---------------------------------------------------------------- the theorems

  predicate EarlierTime(h1: nat, m1: nat, s1: nat, h2: nat, m2: nat, s2: nat) {
    h1 < h2 || (h1 == h2 && (m1 < m2 || (m1 == m2 && s1 < s2)))
  }

  lemma TimeFieldsOrder(h1: nat, m1: nat, s1: nat, h2: nat, m2: nat, s2: nat)
    requires h1 < 100 && m1 < 100 && s1 < 100 && h2 < 100 && m2 < 100 && s2 < 100
    ensures Less(Pad(h1, 2) + (":" + (Pad(m1, 2) + (":" + (Pad(s1, 2) + "Z")))),
                 Pad(h2, 2) + (":" + (Pad(m2, 2) + (":" + (Pad(s2, 2) + "Z")))))
       <==> EarlierTime(h1, m1, s1, h2, m2, s2)
  {
    assert Pow10(2) == 100;
    var u1, u2 := Pad(s1, 2) + "Z", Pad(s2, 2) + "Z";
    assert u1 == Pad(s1, 2) + ("Z" + "") && u2 == Pad(s2, 2) + ("Z" + "");
    FieldCompare(s1, s2, 2, "Z", "", "");
    var v1, v2 := Pad(m1, 2) + (":" + u1), Pad(m2, 2) + (":" + u2);
    FieldCompare(m1, m2, 2, ":", u1, u2);
    FieldCompare(h1, h2, 2, ":", v1, v2);
  }

  lemma PrintedOrder(a: Date, h1: nat, m1: nat, s1: nat, b: Date, h2: nat, m2: nat, s2: nat)
    requires ValidDate(a) && ValidDate(b) && 0 <= a.year < 10_000 && 0 <= b.year < 10_000
    requires h1 < 100 && m1 < 100 && s1 < 100 && h2 < 100 && m2 < 100 && s2 < 100
    ensures Less(Printed(a.year, a.month, a.day, h1, m1, s1), Printed(b.year, b.month, b.day, h2, m2, s2))
       <==> EarlierDate(a, b) || (a == b && EarlierTime(h1, m1, s1, h2, m2, s2))
  {
    assert Pow10(2) == 100 && Pow10(3) == 1_000 && Pow10(4) == 10_000;
    TimeFieldsOrder(h1, m1, s1, h2, m2, s2);
    var t1 := Pad(h1, 2) + (":" + (Pad(m1, 2) + (":" + (Pad(s1, 2) + "Z"))));
    var t2 := Pad(h2, 2) + (":" + (Pad(m2, 2) + (":" + (Pad(s2, 2) + "Z"))));
    FieldCompare(a.day, b.day, 2, "T", t1, t2);
    var d1, d2 := Pad(a.day, 2) + ("T" + t1), Pad(b.day, 2) + ("T" + t2);
    FieldCompare(a.month, b.month, 2, "-", d1, d2);
    var u1, u2 := Pad(a.month, 2) + ("-" + d1), Pad(b.month, 2) + ("-" + d2);
    FieldCompare(a.year, b.year, 4, "-", u1, u2);
  }

  /** The first second of year 10000. */
  const YEAR_10000 := 253_402_300_800

  lemma CivilOfYear10000()
    ensures CivilFromDays(2_932_897) == Date(10_000, 1, 1)
  {
  }

  lemma CountNamedDate(days: int, d: Date)
    requires CivilFromDays(days) == d
    ensures ValidDate(d) && DayCount(d) == days
  {
    CountOfCivil(days);
  }

  lemma FirstDayOfYear10000()
    ensures DayCount(Date(10_000, 1, 1)) * SECONDS_PER_DAY == YEAR_10000
  {
    CivilOfYear10000();
    CountNamedDate(2_932_897, Date(10_000, 1, 1));
  }

  lemma YearBefore10000(t: int)
    ensures Year(t) < 10_000 <==> SecondsOf(t) < YEAR_10000
  {
    var days := SecondsOf(t) / SECONDS_PER_DAY;
    FirstDayOfYear10000();
    CountOfCivil(days);
    DayCountIncreasing(CivilFromDays(days), Date(10_000, 1, 1));
    assert EarlierDate(CivilFromDays(days), Date(10_000, 1, 1)) <==> Year(t) < 10_000;
  }

  /** Whole seconds elapsed since the epoch. */
  lemma SecondsAreFloored(t: int)
    ensures t < 0 ==> SecondsOf(t) == 0
    ensures t >= 0 ==> SecondsOf(t) * 1_000_000_000 <= t < (SecondsOf(t) + 1) * 1_000_000_000
    ensures SecondsOf(t) < YEAR_10000 <==> t < 253_402_300_800_000_000_000
  {
  }

  /** Two times whose strings compare as their whole seconds do; a time before the epoch counts as the epoch. */
  predicate Sorts(t1: int, t2: int) {
    var s1 := if t1 < 0 then 0 else t1 / 1_000_000_000;
    var s2 := if t2 < 0 then 0 else t2 / 1_000_000_000;
    Less(Iso8601Utc(t1), Iso8601Utc(t2)) <==> s1 < s2
  }

  /** Before year 10000 the printed strings sort as the times they print, to the second; a later time never prints
      earlier. */
  lemma OrderPreserved(t1: int, t2: int)
    requires t1 < 253_402_300_800_000_000_000 && t2 < 253_402_300_800_000_000_000
    ensures Sorts(t1, t2)
    ensures t1 <= t2 ==> !Less(Iso8601Utc(t2), Iso8601Utc(t1))
  {
    SecondsAreFloored(t1);
    SecondsAreFloored(t2);
    SecondsCompare(t1, t2);
    SecondsCompare(t2, t1);
  }

  lemma SecondsCompare(t1: int, t2: int)
    requires SecondsOf(t1) < YEAR_10000 && SecondsOf(t2) < YEAR_10000
    ensures Less(Iso8601Utc(t1), Iso8601Utc(t2)) <==> SecondsOf(t1) < SecondsOf(t2)
  {
    YearBefore10000(t1);
    YearBefore10000(t2);
    var n1, n2 := SecondsOf(t1), SecondsOf(t2);
    var d1, d2 := n1 / SECONDS_PER_DAY, n2 / SECONDS_PER_DAY;
    var r1, r2 := n1 % SECONDS_PER_DAY, n2 % SECONDS_PER_DAY;
    YearsAreNatural(d1);
    YearsAreNatural(d2);
    PrintedOrder(CivilFromDays(d1), r1 / 3_600, (r1 % 3_600) / 60, r1 % 60,
                 CivilFromDays(d2), r2 / 3_600, (r2 % 3_600) / 60, r2 % 60);
    CivilIncreasing(d1, d2);
    CivilIncreasing(d2, d1);
    ClockOrder(r1, r2);
    assert n1 == SECONDS_PER_DAY * d1 + r1 && n2 == SECONDS_PER_DAY * d2 + r2;
  }

  lemma ClockOrder(r1: nat, r2: nat)
    ensures EarlierTime(r1 / 3_600, (r1 % 3_600) / 60, r1 % 60, r2 / 3_600, (r2 % 3_600) / 60, r2 % 60) <==> r1 < r2
  {
    MinuteParts(r1);
    MinuteParts(r2);
  }

  lemma MinuteParts(r: nat)
    ensures r == 3_600 * (r / 3_600) + 60 * ((r % 3_600) / 60) + r % 60
    ensures (r % 3_600) / 60 < 60
  {
    assert (r % 3_600) % 60 == r % 60;
  }

  /** The UTC form of `date-time` in section 5.6 of RFC 3339, with the day range of section 5.7. */
  predicate IsRfc3339Utc(s: string) {
    && |s| == 20
    && AllDigits(s[..4]) && s[4] == '-' && AllDigits(s[5..7]) && s[7] == '-' && AllDigits(s[8..10])
    && s[10] == 'T'
    && AllDigits(s[11..13]) && s[13] == ':' && AllDigits(s[14..16]) && s[16] == ':' && AllDigits(s[17..19])
    && s[19] == 'Z'
    && ValidDate(Date(DecimalValue(s[..4]), DecimalValue(s[5..7]), DecimalValue(s[8..10])))
    && DecimalValue(s[11..13]) < 24 && DecimalValue(s[14..16]) < 60 && DecimalValue(s[17..19]) < 60
  }

  /** The seconds since the epoch that a UTC date-time names, by the recursive day count. */
  function ReadBack(s: string): int
    requires IsRfc3339Utc(s)
  {
    DayCount(Date(DecimalValue(s[..4]), DecimalValue(s[5..7]), DecimalValue(s[8..10]))) * SECONDS_PER_DAY
    + DecimalValue(s[11..13]) * 3_600 + DecimalValue(s[14..16]) * 60 + DecimalValue(s[17..19])
  }

  function Layout(y: string, mo: string, d: string, h: string, mi: string, s: string): string {
    y + ("-" + (mo + ("-" + (d + ("T" + (h + (":" + (mi + (":" + (s + "Z"))))))))))
  }

  lemma LayoutSlices(y: string, mo: string, d: string, h: string, mi: string, s: string)
    requires |y| == 4 && |mo| == |d| == |h| == |mi| == |s| == 2
    ensures var p := Layout(y, mo, d, h, mi, s);
            && |p| == 20 && p[..4] == y && p[5..7] == mo && p[8..10] == d
            && p[11..13] == h && p[14..16] == mi && p[17..19] == s
            && p[4] == '-' && p[7] == '-' && p[10] == 'T' && p[13] == ':' && p[16] == ':' && p[19] == 'Z'
  {
    var p := Layout(y, mo, d, h, mi, s);
    var time := h + (":" + (mi + (":" + (s + "Z"))));
    assert |time| == 9 && time[..2] == h && time[3..5] == mi && time[6..8] == s;
    assert time[2] == ':' && time[5] == ':' && time[8] == 'Z';
    assert p[11..] == time;
    assert p[11..13] == time[..2] && p[14..16] == time[3..5] && p[17..19] == time[6..8];
    assert p[13] == time[2] && p[16] == time[5] && p[19] == time[8];
  }

  lemma PrintedMatches(d: Date, h: nat, m: nat, s: nat)
    requires ValidDate(d) && 0 <= d.year < 10_000 && h < 24 && m < 60 && s < 60
    ensures IsRfc3339Utc(Printed(d.year, d.month, d.day, h, m, s))
    ensures ReadBack(Printed(d.year, d.month, d.day, h, m, s))
         == DayCount(d) * SECONDS_PER_DAY + h * 3_600 + m * 60 + s
  {
    assert Pow10(2) == 100 && Pow10(3) == 1_000 && Pow10(4) == 10_000;
    PadIs(d.year, 4);
    PadIs(d.month, 2);
    PadIs(d.day, 2);
    PadIs(h, 2);
    PadIs(m, 2);
    PadIs(s, 2);
    LayoutSlices(Pad(d.year, 4), Pad(d.month, 2), Pad(d.day, 2), Pad(h, 2), Pad(m, 2), Pad(s, 2));
  }

  /** Every time before year 10000 prints as an RFC 3339 UTC date-time, and the printed fields name that time. */
  lemma OutputIsRfc3339(t: int)
    requires SecondsOf(t) < YEAR_10000
    ensures IsRfc3339Utc(Iso8601Utc(t)) && ReadBack(Iso8601Utc(t)) == SecondsOf(t)
  {
    YearBefore10000(t);
    var n := SecondsOf(t);
    YearsAreNatural(n / SECONDS_PER_DAY);
    CountOfCivil(n / SECONDS_PER_DAY);
    var r := n % SECONDS_PER_DAY;
    MinuteParts(r);
    PrintedMatches(CivilFromDays(n / SECONDS_PER_DAY), r / 3_600, (r % 3_600) / 60, r % 60);
  }

  /** The bound is needed: from year 10000 on the strings no longer sort as the times. */
  lemma OrderBreaksAtYear10000()
    ensures var last, first := (YEAR_10000 - 1) * NANOS_PER_SECOND, YEAR_10000 * NANOS_PER_SECOND;
            Less(Iso8601Utc(first), Iso8601Utc(last))
  {
    var last, first := (YEAR_10000 - 1) * NANOS_PER_SECOND, YEAR_10000 * NANOS_PER_SECOND;
    assert SecondsOf(last) == 253_402_300_799 && SecondsOf(first) == 253_402_300_800;
    assert 253_402_300_799 / SECONDS_PER_DAY == 2_932_896 && 253_402_300_800 / SECONDS_PER_DAY == 2_932_897;
    AroundYear10000();
    FirstDigits();
    assert Iso8601Utc(first)[0] == Pad(10_000, 4)[0];
    assert Iso8601Utc(last)[0] == Pad(9_999, 4)[0];
  }

  ghost predicate SortsBefore(horizon: nat) {
    forall t1, t2 :: t1 < horizon * 1_000_000_000 && t2 < horizon * 1_000_000_000 ==> Sorts(t1, t2)
  }

  lemma TwoTimesOutOfOrder() returns (t1: int, t2: int)
    ensures t1 <= 253_402_300_800_000_000_000 && t2 <= 253_402_300_800_000_000_000 && !Sorts(t1, t2)
  {
    t1, t2 := YEAR_10000 * NANOS_PER_SECOND, (YEAR_10000 - 1) * NANOS_PER_SECOND;
    OrderBreaksAtYear10000();
    assert t1 / 1_000_000_000 == YEAR_10000 && t2 / 1_000_000_000 == YEAR_10000 - 1;
  }

  /** The times before a horizon, in seconds, sort as they print exactly when the horizon is the first second of
      year 10000 or earlier. */
  lemma OrderHoldsExactlyBefore(horizon: nat)
    ensures SortsBefore(horizon) <==> horizon <= 253_402_300_800
  {
    if horizon <= 253_402_300_800 {
      forall t1, t2 | t1 < horizon * 1_000_000_000 && t2 < horizon * 1_000_000_000 ensures Sorts(t1, t2) {
        OrderPreserved(t1, t2);
      }
    } else {
      var t1, t2 := TwoTimesOutOfOrder();
      assert !Sorts(t1, t2);
    }
  }

  lemma {:induction false} DecimalAtLeast(n: nat, w: nat)
    requires n >= Pow10(w)
    ensures |Decimal(n)| > w
  {
    if w > 0 {
      assert n / 10 >= Pow10(w - 1);
      DecimalAtLeast(n / 10, w - 1);
    }
  }

  /** The output is an RFC 3339 UTC date-time exactly before year 10000, and then it names the whole second the time
      falls in, or the epoch for earlier times. */
  lemma Rfc3339Exactly(t: int)
    ensures IsRfc3339Utc(Iso8601Utc(t)) <==> t < 253_402_300_800_000_000_000
    ensures 0 <= t < 253_402_300_800_000_000_000 ==>
              ReadBack(Iso8601Utc(t)) * 1_000_000_000 <= t < (ReadBack(Iso8601Utc(t)) + 1) * 1_000_000_000
    ensures t < 0 ==> Iso8601Utc(t) == Iso8601Utc(0) && ReadBack(Iso8601Utc(t)) == 0
  {
    SecondsAreFloored(t);
    SecondsAreFloored(0);
    YearBefore10000(t);
    if SecondsOf(t) < YEAR_10000 {
      OutputIsRfc3339(t);
    } else {
      assert Pow10(2) == 100 && Pow10(3) == 1_000 && Pow10(4) == 10_000;
      DecimalAtLeast(Year(t), 4);
      LongYearTooLong(t);
    }
  }

  lemma LongYearTooLong(t: int)
    ensures |Decimal(Year(t))| > 4 ==> |Iso8601Utc(t)| > 20
  {
    var r := SecondsOf(t) % SECONDS_PER_DAY;
    var date := CivilFromDays(SecondsOf(t) / SECONDS_PER_DAY);
    YearsAreNatural(SecondsOf(t) / SECONDS_PER_DAY);
    PrintedLength(date.year, date.month, date.day, r / 3_600, (r % 3_600) / 60, r % 60);
  }

  lemma PrintedLength(year: nat, month: nat, day: nat, hour: nat, minute: nat, second: nat)
    ensures |Printed(year, month, day, hour, minute, second)| >= |Decimal(year)| + 16
  {
  }

  lemma AroundYear10000()
    ensures CivilFromDays(2_932_896).year == 9_999 && CivilFromDays(2_932_897).year == 10_000
  {
  }

  lemma FirstDigits()
    ensures Pad(9_999, 4) != [] && Pad(9_999, 4)[0] == '9'
    ensures Pad(10_000, 4) != [] && Pad(10_000, 4)[0] == '1'
  {
    assert Decimal(9) == "9" && Decimal(1) == "1";
    assert Decimal(99) == "99" && Decimal(10) == "10";
    assert Decimal(999) == "999" && Decimal(100) == "100";
    assert Decimal(9_999) == "9999" && Decimal(1_000) == "1000";
    assert Decimal(10_000) == "10000";
  }
}
