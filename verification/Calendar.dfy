/** Calendar arithmetic of date_time.c against a calendar that counts days year by year and
    month by month. */
module Calendar {

  datatype DateTime = DateTime(
    year: nat,
    month: nat,
    day: nat,
    dayOfWeek: nat,
    hours: nat,
    minutes: nat,
    seconds: nat,
    milliseconds: nat)

  /** The range of uint32_t. */
  const U32: int := 0x1_0000_0000

  // ----- The Gregorian calendar by counting -----

  predicate Leap(y: nat) {
    y % 4 == 0 && (y % 100 != 0 || y % 400 == 0)
  }

  function YearLength(y: nat): nat { if Leap(y) then 366 else 365 }

  function MonthLength(y: nat, m: nat): nat
    requires 1 <= m <= 12
  {
    if m == 2 then (if Leap(y) then 29 else 28)
    else if m == 4 || m == 6 || m == 9 || m == 11 then 30
    else 31
  }

  /** Days from the first of January of year 1 to the first of January of year y. */
  function DaysToYear(y: nat): nat
    requires y >= 1
  {
    if y == 1 then 0 else DaysToYear(y - 1) + YearLength(y - 1)
  }

  /** Days from the first of January to the first of month m. */
  function DaysToMonth(y: nat, m: nat): nat
    requires 1 <= m <= 12
  {
    if m == 1 then 0 else DaysToMonth(y, m - 1) + MonthLength(y, m - 1)
  }

  predicate ValidDate(y: nat, m: nat, d: nat) {
    y >= 1 && 1 <= m <= 12 && 1 <= d <= MonthLength(y, m)
  }

  /** Days since the first of January 1970. */
  function DayNumber(y: nat, m: nat, d: nat): int
    requires ValidDate(y, m, d)
  {
    DaysToYear(y) - DaysToYear(1970) + DaysToMonth(y, m) + d - 1
  }

  predicate Valid(t: DateTime) {
    && ValidDate(t.year, t.month, t.day)
    && t.hours < 24 && t.minutes < 60 && t.seconds < 60 && t.milliseconds < 1000
  }

  /** Seconds since the first of January 1970. */
  function UnixTime(t: DateTime): int
    requires Valid(t)
  {
    86400 * DayNumber(t.year, t.month, t.day) + 3600 * t.hours + 60 * t.minutes + t.seconds
  }

  // ----- The closed form of convertDateToUnixTime -----

  function YearPart(y: nat): nat { 365 * y + y / 4 - y / 100 + y / 400 }

  function MonthPart(m: nat): nat { 30 * m + 3 * (m + 1) / 5 }

  /** January and February are months 13 and 14 of the year before. */
  function Closed(y: nat, m: nat, d: nat): int
    requires y >= 1
  {
    var (yy, mm) := if m <= 2 then (y - 1, m + 12) else (y, m);
    YearPart(yy) + MonthPart(mm) + d - 719561
  }

  lemma YearStep(y: nat)
    requires y >= 1
    ensures YearPart(y) == YearPart(y - 1) + YearLength(y)
  {
    Quotient(y, 4);
    Quotient(y, 100);
    Quotient(y, 400);
    LeapByCenturies(y);
  }

  lemma LeapByCenturies(y: nat)
    ensures y % 400 == 0 ==> y % 100 == 0
    ensures y % 100 == 0 ==> y % 4 == 0
  {
    if y % 400 == 0 { DivisionUnique(y, 4 * (y / 400), 0, 100); }
    if y % 100 == 0 { DivisionUnique(y, 25 * (y / 100), 0, 4); }
  }

  lemma Quotient(y: nat, k: nat)
    requires y >= 1 && k >= 2
    ensures y / k == (y - 1) / k + if y % k == 0 then 1 else 0
  {
    var q, r := y / k, y % k;
    assert y == q * k + r;
    if r == 0 {
      assert y - 1 == (q - 1) * k + (k - 1);
      DivisionUnique(y - 1, q - 1, k - 1, k);
    } else {
      DivisionUnique(y - 1, q, r - 1, k);
    }
  }

  lemma DivisionUnique(v: int, q: int, r: int, k: int)
    requires k > 0 && 0 <= r < k && v == q * k + r
    ensures v / k == q && v % k == r
  {
    var p := v / k - q;
    assert v == (v / k) * k + v % k;
    assert p * k == r - v % k;
    Multiple(p, k);
  }

  lemma Multiple(p: int, k: int)
    requires k > 0
    ensures p >= 1 ==> p * k >= k
    ensures p <= -1 ==> p * k <= -k
  {
  }

  lemma {:induction false} YearsCounted(y: nat)
    requires y >= 1
    ensures DaysToYear(y) == YearPart(y - 1)
  {
    if y > 1 {
      YearsCounted(y - 1);
      YearStep(y - 1);
    }
  }

  lemma MonthsCounted(y: nat, m: nat)
    requires y >= 1 && 1 <= m <= 12
    ensures DaysToMonth(y, m) + 1 ==
      if m <= 2 then MonthPart(m + 12) - 397 else MonthPart(m) - 32 + YearLength(y) - 365
  {
    if m > 1 {
      MonthsCounted(y, m - 1);
    }
  }

  /** The closed form counts days, for every valid date from year 1 on. */
  lemma ClosedCounts(y: nat, m: nat, d: nat)
    requires ValidDate(y, m, d)
    ensures Closed(y, m, d) == DayNumber(y, m, d)
  {
    YearsCounted(y);
    YearsCounted(1970);
    YearStep(y);
    MonthsCounted(y, m);
  }

  // ----- Order -----

  lemma {:induction false} YearsAscend(y: nat, z: nat)
    requires 1 <= y < z
    ensures DaysToYear(y) + YearLength(y) <= DaysToYear(z)
  {
    if z > y + 1 { YearsAscend(y, z - 1); }
  }

  lemma {:induction false} MonthsAscend(y: nat, m: nat, n: nat)
    requires 1 <= m < n <= 12
    ensures DaysToMonth(y, m) + MonthLength(y, m) <= DaysToMonth(y, n)
  {
    if n > m + 1 { MonthsAscend(y, m, n - 1); }
  }

  lemma WithinYear(y: nat, m: nat, d: nat)
    requires ValidDate(y, m, d)
    ensures DaysToMonth(y, m) + d <= YearLength(y)
  {
    assert DaysToMonth(y, 12) + 31 == YearLength(y) by { MonthsCounted(y, 12); }
    if m < 12 { MonthsAscend(y, m, 12); }
  }

  predicate Earlier(y: nat, m: nat, d: nat, z: nat, n: nat, e: nat) {
    y < z || (y == z && (m < n || (m == n && d < e)))
  }

  /** Day numbers ascend strictly along the calendar. */
  lemma EarlierDaysLess(y: nat, m: nat, d: nat, z: nat, n: nat, e: nat)
    requires ValidDate(y, m, d) && ValidDate(z, n, e)
    ensures DayNumber(y, m, d) < DayNumber(z, n, e) <==> Earlier(y, m, d, z, n, e)
    ensures DayNumber(y, m, d) == DayNumber(z, n, e) <==> y == z && m == n && d == e
  {
    WithinYear(y, m, d);
    WithinYear(z, n, e);
    hide DaysToMonth, YearLength, MonthLength;
    if y < z { YearsAscend(y, z); }
    if z < y { YearsAscend(z, y); }
    if y == z && m < n { MonthsAscend(y, m, n); }
    if y == z && n < m { MonthsAscend(y, n, m); }
  }

  /** compareDateTime */
  function Compare(a: DateTime, b: DateTime): int {
    if a.year < b.year then -1 else if a.year > b.year then 1
    else if a.month < b.month then -1 else if a.month > b.month then 1
    else if a.day < b.day then -1 else if a.day > b.day then 1
    else if a.hours < b.hours then -1 else if a.hours > b.hours then 1
    else if a.minutes < b.minutes then -1 else if a.minutes > b.minutes then 1
    else if a.seconds < b.seconds then -1 else if a.seconds > b.seconds then 1
    else if a.milliseconds < b.milliseconds then -1 else if a.milliseconds > b.milliseconds then 1
    else 0
  }

  /** Comparing fields is comparing instants. */
  lemma CompareIsTimeOrder(a: DateTime, b: DateTime)
    requires Valid(a) && Valid(b)
    ensures Compare(a, b) < 0 <==>
      UnixTime(a) < UnixTime(b) || (UnixTime(a) == UnixTime(b) && a.milliseconds < b.milliseconds)
    ensures Compare(a, b) == 0 <==> UnixTime(a) == UnixTime(b) && a.milliseconds == b.milliseconds
    ensures Compare(a, b) in {-1, 0, 1} && Compare(b, a) == -Compare(a, b)
  {
    EarlierDaysLess(a.year, a.month, a.day, b.year, b.month, b.day);
    hide DayNumber, ValidDate;
    SecondsOrder(a, b);
  }

  lemma SecondsOrder(a: DateTime, b: DateTime)
    requires Valid(a) && Valid(b)
    ensures var (p, q) := (DayNumber(a.year, a.month, a.day), DayNumber(b.year, b.month, b.day));
      var (s, t) := (3600 * a.hours + 60 * a.minutes + a.seconds, 3600 * b.hours + 60 * b.minutes + b.seconds);
      && (UnixTime(a) < UnixTime(b) <==> p < q || (p == q && s < t))
      && (UnixTime(a) == UnixTime(b) <==> p == q && s == t)
      && (s < t <==> a.hours < b.hours || (a.hours == b.hours && (a.minutes < b.minutes ||
                      (a.minutes == b.minutes && a.seconds < b.seconds))))
      && (s == t <==> a.hours == b.hours && a.minutes == b.minutes && a.seconds == b.seconds)
  {
  }

  /** An instant has one date. */
  lemma SameInstant(a: DateTime, b: DateTime)
    requires Valid(a) && Valid(b) && UnixTime(a) == UnixTime(b)
    ensures a.year == b.year && a.month == b.month && a.day == b.day
    ensures a.hours == b.hours && a.minutes == b.minutes && a.seconds == b.seconds
  {
    EarlierDaysLess(a.year, a.month, a.day, b.year, b.month, b.day);
    hide DayNumber, ValidDate;
    SecondsOrder(a, b);
  }

  // ----- convertDateToUnixTime -----

  function Low32(v: int): (r: int)
    ensures 0 <= v < U32 ==> r == v
  {
    v % U32
  }

  /** Days since 1970 of a date with months 3 to 14, wrapping around in every step. */
  function Days32(y: nat, m: nat, d: nat): int {
    var years := Low32(365 * y + y / 4 - y / 100 + y / 400);
    Low32(Low32(years + 30 * m + 3 * (m + 1) / 5 + d) - 719561)
  }

  /** With the wrap-around of uint32_t in every step. */
  function DateToUnix(t: DateTime): int {
    var days := if t.month <= 2 then Days32(Low32(t.year - 1), t.month + 12, t.day) else Days32(t.year, t.month, t.day);
    Low32(Low32(days * 86400) + 3600 * t.hours + 60 * t.minutes + t.seconds)
  }

  lemma DaysWrapOnce(y: nat, m: nat, d: nat)
    ensures Days32(y, m, d) == Low32(YearPart(y) + MonthPart(m) + d - 719561)
  {
    hide Low32;
    var years := YearPart(y);
    assert Low32(years) + 30 * m + 3 * (m + 1) / 5 + d == Low32(years) + (MonthPart(m) + d);
    Wrap(years, MonthPart(m) + d, 0);
    Wrap(years + (MonthPart(m) + d), -719561, 0);
  }

  /** Intermediate wrap-around does not matter. */
  lemma Wrap(a: int, b: int, k: int)
    ensures Low32(Low32(a) + b) == Low32(a + b)
    ensures Low32(Low32(a) * k) == Low32(a * k)
  {
    var q := a / U32;
    assert a == q * U32 + a % U32;
    Congruent(a % U32 + b, a + b, -q);
    assert a * k == (q * k) * U32 + (a % U32) * k;
    Congruent((a % U32) * k, a * k, -(q * k));
  }

  lemma Congruent(v: int, w: int, q: int)
    requires v == w + q * U32
    ensures v % U32 == w % U32
  {
    DivisionUnique(v, w / U32 + q, w % U32, U32);
  }

  /** The Unix time of every valid date, as far as 32 bits go. */
  lemma DateToUnixCounts(t: DateTime)
    requires Valid(t) && t.year < 0x1_0000
    ensures DateToUnix(t) == Low32(UnixTime(t))
  {
    var time := 3600 * t.hours + 60 * t.minutes + t.seconds;
    var days := DayNumber(t.year, t.month, t.day);
    ShiftedDays(t.year, t.month, t.day);
    hide Low32, DayNumber, Days32, ValidDate;
    Wrap(days, 0, 86400);
    Wrap(days * 86400, time, 0);
  }

  lemma ShiftedDays(y: nat, m: nat, d: nat)
    requires ValidDate(y, m, d) && y < 0x1_0000
    ensures (if m <= 2 then Days32(Low32(y - 1), m + 12, d) else Days32(y, m, d)) == Low32(DayNumber(y, m, d))
  {
    ClosedCounts(y, m, d);
    DaysWrapOnce(if m <= 2 then y - 1 else y, if m <= 2 then m + 12 else m, d);
    hide Low32, YearPart, MonthPart, DayNumber, Days32, MonthLength;
  }

  // ----- convertUnixTimeToDate -----

  method ConvertUnixTimeToDate(time: int) returns (date: DateTime)
    requires time < U32
    ensures Valid(date) && UnixTime(date) == if time < 1 then 0 else time
    ensures date.milliseconds == 0 && date.year < 0x1_0000
    ensures date.dayOfWeek == (DayNumber(date.year, date.month, date.day) + 3) % 7 + 1
  {
    var t: nat := if time < 1 then 0 else time;
    ghost var clamped := t;
    var seconds := t % 60;
    t := t / 60;
    var minutes := t % 60;
    t := t / 60;
    var hours := t % 24;
    t := t / 24;
    assert clamped == 86400 * t + 3600 * hours + 60 * minutes + seconds && t <= 49710;
    var year, month, day := CivilDate(t);
    WeekdayCounts(year, month, day);
    hide DayNumber, ValidDate, ComputeDayOfWeek;
    date := DateTime(year, month, day, ComputeDayOfWeek(year, month, day), hours, minutes, seconds, 0);
  }

  /** The date of a day count by the code's closed forms, up to the last day 32 bits reach. */
  method CivilDate(t: nat) returns (year: nat, month: nat, day: nat)
    requires t <= 49710
    ensures ValidDate(year, month, day) && DayNumber(year, month, day) == t && year < 0x1_0000
  {
    var a := (4 * t + 102032) / 146097 + 15;
    var b := t + 2442113 + a - a / 4;
    var c := (20 * b - 2442) / 7305;
    ShiftedDay(t, a, b, c);
    var d: nat := b - 365 * c - c / 4;
    var e := d * 1000 / 30601;
    DayInMonth(d, e);
    var f: nat := d - e * 30 - e * 601 / 1000;
    CivilValid(c, d, e, f);
    CivilCounts(t, b, c, d, e, f);
    ClosedCounts(CivilYear(c, e), CivilMonth(e), f);
    assert CivilYear(c, e) < 0x1_0000;
    hide ValidDate, DayNumber, Closed;
    if e <= 13 {
      return c - 4716, e - 1, f;
    } else {
      return c - 4715, e - 13, f;
    }
  }

  /** Where the shifted day count lies, and the year it yields. */
  lemma ShiftedDay(t: nat, a: nat, b: nat, c: nat)
    requires t <= 49710 && a == (4 * t + 102032) / 146097 + 15 && b == t + 2442113 + a - a / 4
    requires c == (20 * b - 2442) / 7305
    ensures b == t + if t < 47541 then 2442125 else 2442126
    ensures 6685 <= c && (c < 6816 <==> t < 47541) && c <= 6821
    ensures 123 <= b - 365 * c - c / 4 <= 488
    ensures b - 365 * c - c / 4 == 488 ==> (c + 1) % 4 == 0 && c != 6815
    ensures c == 6685 ==> b - 365 * c - c / 4 >= 429
  {
  }

  /** Position d within the shifted year is day f of month e. */
  lemma DayInMonth(d: nat, e: nat)
    requires 123 <= d <= 488 && e == d * 1000 / 30601
    ensures 4 <= e <= 15 && 3 * e / 5 == e * 601 / 1000
    ensures var f := d - e * 30 - e * 601 / 1000;
      && 1 <= f <= 31
      && (e == 5 || e == 7 || e == 10 || e == 12 ==> f <= 30)
      && (e == 15 ==> f <= 29 && (f == 29 ==> d == 488))
      && (d >= 429 ==> e >= 14)
  {
  }

  function CivilYear(c: nat, e: nat): int { if e <= 13 then c - 4716 else c - 4715 }

  function CivilMonth(e: nat): int { if e <= 13 then e - 1 else e - 13 }

  lemma CivilValid(c: nat, d: nat, e: nat, f: nat)
    requires 6685 <= c <= 6821 && 4 <= e <= 15 && 1 <= f <= 31
    requires e == 5 || e == 7 || e == 10 || e == 12 ==> f <= 30
    requires e == 15 ==> f <= 29 && (f == 29 ==> (c + 1) % 4 == 0 && c != 6815)
    ensures CivilYear(c, e) >= 1 && CivilMonth(e) >= 1 && ValidDate(CivilYear(c, e), CivilMonth(e), f)
  {
    if e == 15 && f == 29 {
      FebruaryLeaps(c - 4715);
    }
  }

  lemma FebruaryLeaps(y: nat)
    requires 1970 <= y <= 2106 && y % 4 == 0 && y != 2100
    ensures Leap(y)
  {
  }

  lemma CivilCounts(t: nat, b: nat, c: nat, d: nat, e: nat, f: nat)
    requires b == t + if t < 47541 then 2442125 else 2442126
    requires 6685 <= c <= 6821 && (c < 6816 <==> t < 47541)
    requires d == b - 365 * c - c / 4 && 4 <= e <= 15 && f == d - e * 30 - e * 601 / 1000
    requires 3 * e / 5 == e * 601 / 1000
    ensures CivilYear(c, e) >= 1 && CivilMonth(e) >= 1 && Closed(CivilYear(c, e), CivilMonth(e), f) == t
  {
    var y := c - 4716;
    assert CivilMonth(e) <= 2 <==> e > 13;
    assert Closed(CivilYear(c, e), CivilMonth(e), f) == YearPart(y) + MonthPart(e - 1) + f - 719561;
    YearsSince(c);
    hide Closed, CivilYear, CivilMonth;
  }

  lemma YearsSince(c: nat)
    requires 6685 <= c <= 6821
    ensures YearPart(c - 4716) == 365 * c + c / 4 - 1722519 - if c < 6816 then 15 else 16
  {
  }

  // ----- Round trips -----

  /** To Unix time and back, from whatever date a time was converted to. */
  lemma ThereAndBack(time: int, date: DateTime)
    requires 0 <= time < U32
    requires Valid(date) && UnixTime(date) == time && date.year < 0x1_0000
    ensures DateToUnix(date) == time
  {
    DateToUnixCounts(date);
  }

  /** From a date to Unix time and back: any date the time was converted to has the fields of
      the first one. */
  lemma BackAndThere(date: DateTime, back: DateTime)
    requires Valid(date) && date.year < 0x1_0000 && 0 <= UnixTime(date) < U32
    requires Valid(back) && UnixTime(back) == DateToUnix(date)
    ensures back.year == date.year && back.month == date.month && back.day == date.day
    ensures back.hours == date.hours && back.minutes == date.minutes && back.seconds == date.seconds
  {
    DateToUnixCounts(date);
    SameInstant(date, back);
  }

  // ----- computeDayOfWeek -----

  /** Zeller's congruence, for months 3 to 14. */
  function Zeller(y: nat, m: nat, d: nat): nat {
    var j, k := y / 100, y % 100;
    var h := d + 26 * (m + 1) / 10 + k + k / 4 + 5 * j + j / 4;
    (h + 5) % 7 + 1
  }

  function Low16(v: int): (r: nat)
    ensures 0 <= v < 0x1_0000 ==> r == v
  {
    v % 0x1_0000
  }

  function ComputeDayOfWeek(y: nat, m: nat, d: nat): nat {
    if m <= 2 then Zeller(Low16(y - 1), m + 12, d) else Zeller(y, m, d)
  }

  /** Zeller's congruence agrees with counting days: the first of January 1970 was a Thursday,
      and every day is followed by the next weekday. */
  lemma WeekdayCounts(y: nat, m: nat, d: nat)
    requires ValidDate(y, m, d) && y < 0x1_0000
    ensures ComputeDayOfWeek(y, m, d) == (DayNumber(y, m, d) + 3) % 7 + 1
  {
    ClosedCounts(y, m, d);
    ZellerCounts(if m <= 2 then y - 1 else y, if m <= 2 then m + 12 else m, d);
    hide Zeller, YearPart, MonthPart, DayNumber, ValidDate, Low16;
  }

  lemma ZellerCounts(y: nat, m: nat, d: nat)
    ensures Zeller(y, m, d) == (YearPart(y) + MonthPart(m) + d - 719561 + 3) % 7 + 1
  {
    var j, k := y / 100, y % 100;
    var h := d + 26 * (m + 1) / 10 + k + k / 4 + 5 * j + j / 4;
    assert Zeller(y, m, d) == (h + 5) % 7 + 1;
    hide Zeller;
    CenturyParts(y, j, k);
    MonthWeeks(m);
    var q := 5217 * j + 52 * k + 4 * m - 102795;
    assert YearPart(y) + MonthPart(m) + d - 719561 + 3 == h + 5 + 7 * q;
    DivisionUnique(h + 5 + 7 * q, (h + 5) / 7 + q, (h + 5) % 7, 7);
  }

  lemma CenturyParts(y: nat, j: nat, k: nat)
    requires j == y / 100 && k == y % 100
    ensures y == 100 * j + k && y / 4 == 25 * j + k / 4 && y / 400 == j / 4
  {
  }

  lemma MonthWeeks(m: nat)
    ensures 26 * (m + 1) / 10 == 2 * (m + 1) + 3 * (m + 1) / 5
  {
  }
}
