/** Proleptic Gregorian calendar arithmetic as Go's `time` package does it:
    `time.Date` (with month normalisation), `Year`/`Month`/`Day` and `AddDate`.
    Day 0 is 1 January of year 0; an instant counts nanoseconds from there. */
module Calendar {

  const NANOS_PER_SECOND := 1_000_000_000
  const NANOS_PER_DAY := 86_400_000_000_000

  datatype Civil = Civil(year: int, month: int, day: int)

  predicate IsLeap(y: int) {
    y % 4 == 0 && (y % 100 != 0 || y % 400 == 0)
  }

  function DaysIn(y: int, m: int): int
    requires 1 <= m <= 12
  {
    if m == 2 then (if IsLeap(y) then 29 else 28)
    else if m == 4 || m == 6 || m == 9 || m == 11 then 30 else 31
  }

  function DaysBeforeMonth(y: int, m: int): int
    requires 1 <= m <= 12
  {
    var common := [0, 31, 59, 90, 120, 151, 181, 212, 243, 273, 304, 334][m - 1];
    if m > 2 && IsLeap(y) then common + 1 else common
  }

  function YearLength(y: int): int {
    if IsLeap(y) then 366 else 365
  }

  function DaysBeforeYear(y: int): int {
    365 * y + (y + 3) / 4 - (y + 99) / 100 + (y + 399) / 400
  }

  predicate ValidCivil(c: Civil) {
    1 <= c.month <= 12 && 1 <= c.day <= DaysIn(c.year, c.month)
  }

  /** `time.Date(y, m, d, 0, 0, 0, 0, UTC)` as a day number; a month outside 1..12
      carries into the year and a day outside the month carries into later months. */
  function DayNumber(y: int, m: int, d: int): int {
    var year := y + (m - 1) / 12;
    var month := (m - 1) % 12 + 1;
    DaysBeforeYear(year) + DaysBeforeMonth(year, month) + d - 1
  }

  /** The year of a day, by 400-, 100-, 4- and 1-year cycles counted from year 1, so that
      every leap day falls at the end of its cycle. */
  function YearOf(day: int): int {
    var n := day - 366;
    var r400 := n % 146097;
    var c100 := if r400 / 36524 == 4 then 3 else r400 / 36524;
    var r100 := r400 - 36524 * c100;
    var c4 := r100 / 1461;
    var r4 := r100 - 1461 * c4;
    var c1 := if r4 / 365 == 4 then 3 else r4 / 365;
    1 + 400 * (n / 146097) + 100 * c100 + 4 * c4 + c1
  }

  function MonthOf(y: int, yearDay: int): (m: int)
    requires 0 <= yearDay < YearLength(y)
    ensures 1 <= m <= 12
    ensures DaysBeforeMonth(y, m) <= yearDay < DaysBeforeMonth(y, m) + DaysIn(y, m)
  {
    if yearDay < DaysBeforeMonth(y, 2) then 1
    else if yearDay < DaysBeforeMonth(y, 3) then 2
    else if yearDay < DaysBeforeMonth(y, 4) then 3
    else if yearDay < DaysBeforeMonth(y, 5) then 4
    else if yearDay < DaysBeforeMonth(y, 6) then 5
    else if yearDay < DaysBeforeMonth(y, 7) then 6
    else if yearDay < DaysBeforeMonth(y, 8) then 7
    else if yearDay < DaysBeforeMonth(y, 9) then 8
    else if yearDay < DaysBeforeMonth(y, 10) then 9
    else if yearDay < DaysBeforeMonth(y, 11) then 10
    else if yearDay < DaysBeforeMonth(y, 12) then 11
    else 12
  }

  /** `t.Year(), t.Month(), t.Day()` of a day number. */
  function CivilOf(day: int): (c: Civil)
    ensures ValidCivil(c)
    ensures DayNumber(c.year, c.month, c.day) == day
  {
    YearBounds(day);
    var y := YearOf(day);
    var yearDay := day - DaysBeforeYear(y);
    var m := MonthOf(y, yearDay);
    var d := yearDay - DaysBeforeMonth(y, m) + 1;
    DayNumberInRange(y, m, d);
    Civil(y, m, d)
  }

  lemma DayNumberInRange(y: int, m: int, d: int)
    requires 1 <= m <= 12
    ensures DayNumber(y, m, d) == DaysBeforeYear(y) + DaysBeforeMonth(y, m) + d - 1
  {
    hide DaysBeforeYear, DaysBeforeMonth;
  }

  lemma Div4(x: int, q: int, r: int)
    requires x == 4 * q + r && 0 <= r < 4
    ensures x / 4 == q && x % 4 == r
  {
  }

  lemma Div100(x: int, q: int, r: int)
    requires x == 100 * q + r && 0 <= r < 100
    ensures x / 100 == q && x % 100 == r
  {
  }

  lemma Div400(x: int, q: int, r: int)
    requires x == 400 * q + r && 0 <= r < 400
    ensures x / 400 == q && x % 400 == r
  {
  }

  /** Dividing by 4, 100 or 400 rounded up grows past exactly the multiples. */
  lemma DivSteps(y: int)
    ensures (y + 4) / 4 == (y + 3) / 4 + if y % 4 == 0 then 1 else 0
    ensures (y + 100) / 100 == (y + 99) / 100 + if y % 100 == 0 then 1 else 0
    ensures (y + 400) / 400 == (y + 399) / 400 + if y % 400 == 0 then 1 else 0
  {
    Div4(y + 4, y / 4 + 1, y % 4);
    if y % 4 == 0 { Div4(y + 3, y / 4, 3); } else { Div4(y + 3, y / 4 + 1, y % 4 - 1); }
    Div100(y + 100, y / 100 + 1, y % 100);
    if y % 100 == 0 { Div100(y + 99, y / 100, 99); } else { Div100(y + 99, y / 100 + 1, y % 100 - 1); }
    Div400(y + 400, y / 400 + 1, y % 400);
    if y % 400 == 0 { Div400(y + 399, y / 400, 399); } else { Div400(y + 399, y / 400 + 1, y % 400 - 1); }
  }

  lemma NextYear(y: int)
    ensures DaysBeforeYear(y + 1) == DaysBeforeYear(y) + YearLength(y)
  {
    DivSteps(y);
    Divisible(y);
  }

  lemma Divisible(y: int)
    ensures y % 400 == 0 ==> y % 100 == 0
    ensures y % 100 == 0 ==> y % 4 == 0
  {
    if y % 400 == 0 { Div100(y, 4 * (y / 400), 0); }
    if y % 100 == 0 { Div4(y, 25 * (y / 100), 0); }
  }

  lemma {:induction false} YearsIncrease(y: int, z: int)
    requires y < z
    ensures DaysBeforeYear(y + 1) <= DaysBeforeYear(z)
    decreases z - y
  {
    if y + 1 < z {
      YearsIncrease(y + 1, z);
      NextYear(y + 1);
    }
  }

  /** Every day lies within the year computed for it. */
  lemma YearBounds(day: int)
    ensures DaysBeforeYear(YearOf(day)) <= day < DaysBeforeYear(YearOf(day)) + YearLength(YearOf(day))
  {
    var n := day - 366;
    var c400, r400 := n / 146097, n % 146097;
    var c100 := if r400 / 36524 == 4 then 3 else r400 / 36524;
    var r100 := r400 - 36524 * c100;
    var c4 := r100 / 1461;
    var r4 := r100 - 1461 * c4;
    var c1 := if r4 / 365 == 4 then 3 else r4 / 365;
    assert n == 146097 * c400 + r400;
    Cycles(r400, c100, r100, c4, r4, c1);
    CycleYear(c400, c100, c4, c1);
  }

  /** The remainders of the cycle divisions, and which year of its cycles each one points at. */
  lemma Cycles(r400: int, c100: int, r100: int, c4: int, r4: int, c1: int)
    requires 0 <= r400 < 146097
    requires c100 == if r400 / 36524 == 4 then 3 else r400 / 36524
    requires r100 == r400 - 36524 * c100
    requires c4 == r100 / 1461 && r4 == r100 - 1461 * c4
    requires c1 == if r4 / 365 == 4 then 3 else r4 / 365
    ensures 0 <= c100 <= 3 && 0 <= c4 <= 24 && 0 <= c1 <= 3
    ensures 0 <= r4 - 365 * c1 < if c1 == 3 && (c4 != 24 || c100 == 3) then 366 else 365
  {
    assert 0 <= r100 < if c100 == 3 then 36525 else 36524;
    assert 0 <= c4 <= 24;
    assert 0 <= r4 < if c4 == 24 && c100 != 3 then 1460 else 1461;
  }

  /** Days before the year made of whole cycles, and whether that year is a leap year. */
  lemma CycleYear(c400: int, c100: int, c4: int, c1: int)
    requires 0 <= c100 <= 3 && 0 <= c4 <= 24 && 0 <= c1 <= 3
    ensures var y := 1 + 400 * c400 + 100 * c100 + 4 * c4 + c1;
            && DaysBeforeYear(y) == 366 + 146097 * c400 + 36524 * c100 + 1461 * c4 + 365 * c1
            && (IsLeap(y) <==> c1 == 3 && (c4 != 24 || c100 == 3))
  {
    var y := 1 + 400 * c400 + 100 * c100 + 4 * c4 + c1;
    Div4(y + 3, 100 * c400 + 25 * c100 + c4 + 1, c1);
    Div100(y + 99, 4 * c400 + c100 + 1, 4 * c4 + c1);
    Div400(y + 399, c400 + 1, 100 * c100 + 4 * c4 + c1);
    if c1 < 3 {
      Div4(y, 100 * c400 + 25 * c100 + c4, c1 + 1);
    } else {
      Div4(y, 100 * c400 + 25 * c100 + c4 + 1, 0);
      if c4 == 24 {
        Div100(y, 4 * c400 + c100 + 1, 0);
        if c100 == 3 { Div400(y, c400 + 1, 0); } else { Div400(y, c400, 100 * c100 + 100); }
      } else {
        Div100(y, 4 * c400 + c100, 4 * c4 + 4);
      }
    }
  }

  lemma SameYear(y: int, z: int, day: int)
    requires DaysBeforeYear(y) <= day < DaysBeforeYear(y) + YearLength(y)
    requires DaysBeforeYear(z) <= day < DaysBeforeYear(z) + YearLength(z)
    ensures y == z
  {
    NextYear(y);
    NextYear(z);
    if y < z { YearsIncrease(y, z); }
    if z < y { YearsIncrease(z, y); }
  }

  /** Two valid dates with the same day number are the same date. */
  lemma DateUnique(c: Civil, d: Civil)
    requires ValidCivil(c) && ValidCivil(d)
    requires DayNumber(c.year, c.month, c.day) == DayNumber(d.year, d.month, d.day)
    ensures c == d
  {
    WithinYear(c);
    WithinYear(d);
    SameYear(c.year, d.year, DayNumber(c.year, c.month, c.day));
    SameMonth(c.year, c.month, c.day, d.month, d.day);
  }

  lemma WithinYear(c: Civil)
    requires ValidCivil(c)
    ensures DayNumber(c.year, c.month, c.day) == DaysBeforeYear(c.year) + DaysBeforeMonth(c.year, c.month) + c.day - 1
    ensures DaysBeforeYear(c.year) <= DayNumber(c.year, c.month, c.day) < DaysBeforeYear(c.year) + YearLength(c.year)
  {
    hide DayNumber, DaysBeforeYear;
    DayNumberInRange(c.year, c.month, c.day);
    MonthsIncrease(c.year, c.month, c.month);
  }

  lemma SameMonth(y: int, m: int, d: int, k: int, e: int)
    requires 1 <= m <= 12 && 1 <= d <= DaysIn(y, m)
    requires 1 <= k <= 12 && 1 <= e <= DaysIn(y, k)
    requires DaysBeforeMonth(y, m) + d == DaysBeforeMonth(y, k) + e
    ensures m == k && d == e
  {
    MonthsIncrease(y, m, k);
    MonthsIncrease(y, k, m);
  }

  /** The calendar date of a day number is the date it was built from. */
  lemma CivilOfDayNumber(c: Civil)
    requires ValidCivil(c)
    ensures CivilOf(DayNumber(c.year, c.month, c.day)) == c
  {
    DateUnique(c, CivilOf(DayNumber(c.year, c.month, c.day)));
  }

  lemma MonthsIncrease(y: int, m: int, k: int)
    requires 1 <= m <= 12 && 1 <= k <= 12
    ensures DaysBeforeMonth(y, m) + DaysIn(y, m) <= YearLength(y)
    ensures m < k ==> DaysBeforeMonth(y, m) + DaysIn(y, m) <= DaysBeforeMonth(y, k)
  {
  }

  /** `t.AddDate(0, months, 0)` on a day number. */
  function AddMonths(day: int, months: int): int {
    var c := CivilOf(day);
    DayNumber(c.year, c.month + months, c.day)
  }

  /** The first of the month a day falls in. */
  function FirstOfMonth(day: int): int {
    var c := CivilOf(day);
    DayNumber(c.year, c.month, 1)
  }

  function DayOf(t: int): int {
    t / NANOS_PER_DAY
  }

  function StartOfDay(day: int): int {
    day * NANOS_PER_DAY
  }
}
