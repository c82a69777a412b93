/** Calendar periods of `syslog_logs` partitions and the names that stand for them
    (`partitionGranularity`, `parsePartitionBounds`). */
module PartitionNames {
  import opened Wrappers
  import opened Calendar
  import opened Decimal

  datatype Granularity = Day | Month

  /** How many future partitions are kept ready. */
  function AheadCount(g: Granularity): nat {
    if g == Day then 7 else 3
  }

  datatype Range = Range(start: int, end: int)

  // ---------- the granularity's methods ----------

  function Truncate(g: Granularity, t: int): int {
    StartOfDay(if g == Month then FirstOfMonth(DayOf(t)) else DayOf(t))
  }

  /** `t.AddDate(..)`: the date moves, the time of day stays. */
  function MoveDate(t: int, day: int): int {
    t - StartOfDay(DayOf(t)) + StartOfDay(day)
  }

  function Next(g: Granularity, t: int): int {
    MoveDate(t, if g == Month then AddMonths(DayOf(t), 1) else DayOf(t) + 1)
  }

  function Previous(g: Granularity, t: int): int {
    MoveDate(t, if g == Month then AddMonths(DayOf(t), -1) else DayOf(t) - 1)
  }

  const PREFIX := "syslog_logs_"

  function Suffix(g: Granularity, c: Civil): string
    requires ValidCivil(c)
  {
    PrintYear(c.year) + "_" + Padded(c.month, 2) + (if g == Month then "" else "_" + Padded(c.day, 2))
  }

  function PartitionName(g: Granularity, t: int): string {
    PREFIX + Suffix(g, CivilOf(DayOf(t)))
  }

  // ---------- reading a name ----------

  /** The suffix as a date: YYYY_MM, or YYYY_MM_DD with a day that exists in its month. */
  function ParseSuffix(s: string): Option<(Granularity, Civil)> {
    if |s| >= 7 && IsNumeral(s[..4]) && s[4] == '_' && IsNumeral(s[5..7]) then
      var y, m := Number(s[..4]), Number(s[5..7]);
      if |s| == 7 && 1 <= m <= 12 then Some((Month, Civil(y, m, 1)))
      else if |s| == 10 && s[7] == '_' && IsNumeral(s[8..10]) && ValidCivil(Civil(y, m, Number(s[8..10]))) then
        Some((Day, Civil(y, m, Number(s[8..10]))))
      else None
    else None
  }

  function ParsePartition(name: string): Option<(Granularity, Range)> {
    if |name| < |PREFIX| || name[..|PREFIX|] != PREFIX then None
    else match ParseSuffix(name[|PREFIX|..])
      case None => None
      case Some((g, c)) =>
        var start := StartOfDay(DayNumber(c.year, c.month, c.day));
        Some((g, Range(start, Next(g, start))))
  }

  function ParsePartitionBounds(name: string): Option<Range> {
    match ParsePartition(name)
    case None => None
    case Some((_, range)) => Some(range)
  }

  // ---------- periods by number ----------

  /** Months counted from January of year 0. */
  function MonthNumber(day: int): int {
    12 * CivilOf(day).year + CivilOf(day).month - 1
  }

  function MonthStart(k: int): int {
    DayNumber(k / 12, k % 12 + 1, 1)
  }

  function PeriodOf(g: Granularity, t: int): int {
    if g == Month then MonthNumber(DayOf(t)) else DayOf(t)
  }

  function PeriodStart(g: Granularity, k: int): int {
    StartOfDay(if g == Month then MonthStart(k) else k)
  }

  lemma Div12(x: int, q: int, r: int)
    requires x == 12 * q + r && 0 <= r < 12
    ensures x / 12 == q && x % 12 == r
  {
  }

  lemma DayNumberCarries(y: int, m: int)
    ensures DayNumber(y, m, 1) == MonthStart(12 * y + m - 1)
  {
    hide DaysBeforeYear, DaysBeforeMonth;
    Div12(12 * y + m - 1, y + (m - 1) / 12, (m - 1) % 12);
    DayNumberInRange(y + (m - 1) / 12, (m - 1) % 12 + 1, 1);
  }

  lemma CivilOfMonthStart(k: int)
    ensures CivilOf(MonthStart(k)) == Civil(k / 12, k % 12 + 1, 1)
    ensures MonthNumber(MonthStart(k)) == k
  {
    hide CivilOf, DayNumber;
    assert ValidCivil(Civil(k / 12, k % 12 + 1, 1));
    CivilOfDayNumber(Civil(k / 12, k % 12 + 1, 1));
  }

  lemma MonthLength(k: int)
    ensures MonthStart(k + 1) == MonthStart(k) + DaysIn(k / 12, k % 12 + 1)
  {
    hide DaysBeforeYear, DayNumber;
    var y, m := k / 12, k % 12 + 1;
    DayNumberInRange(y, m, 1);
    if m < 12 {
      Div12(k + 1, y, m);
      DayNumberInRange(y, m + 1, 1);
    } else {
      Div12(k + 1, y + 1, 0);
      DayNumberInRange(y + 1, 1, 1);
      NextYear(y);
    }
  }

  lemma {:induction false} MonthsApart(j: int, k: int)
    requires j < k
    ensures MonthStart(j) + 28 <= MonthStart(k)
    decreases k - j
  {
    hide MonthStart;
    MonthLength(j);
    if j + 1 < k {
      MonthsApart(j + 1, k);
    }
  }

  lemma WithinMonth(day: int)
    ensures MonthStart(MonthNumber(day)) <= day < MonthStart(MonthNumber(day) + 1)
    ensures MonthStart(MonthNumber(day)) == FirstOfMonth(day)
  {
    hide DaysBeforeYear, DaysBeforeMonth, DaysIn, CivilOf, DayNumber;
    var c := CivilOf(day);
    Div12(MonthNumber(day), c.year, c.month - 1);
    DayNumberInRange(c.year, c.month, 1);
    DayNumberInRange(c.year, c.month, c.day);
    MonthLength(MonthNumber(day));
  }

  lemma DayOfStart(day: int)
    ensures DayOf(StartOfDay(day)) == day
  {
  }

  lemma DayBounds(t: int)
    ensures StartOfDay(DayOf(t)) <= t < StartOfDay(DayOf(t) + 1)
  {
  }

  lemma DayStarts(a: int, b: int)
    requires a < b
    ensures StartOfDay(a) < StartOfDay(b)
  {
  }

  /** Periods are laid end to end and each instant is in the period computed for it. */
  lemma PeriodContains(g: Granularity, t: int)
    ensures PeriodStart(g, PeriodOf(g, t)) == Truncate(g, t)
    ensures PeriodStart(g, PeriodOf(g, t)) <= t < PeriodStart(g, PeriodOf(g, t) + 1)
  {
    hide StartOfDay, DayOf, MonthStart, MonthNumber, FirstOfMonth;
    DayBounds(t);
    var day := DayOf(t);
    if g == Month {
      WithinMonth(day);
      var first, last := MonthStart(MonthNumber(day)), MonthStart(MonthNumber(day) + 1);
      if first < day { DayStarts(first, day); }
      if day + 1 < last { DayStarts(day + 1, last); }
    }
  }

  lemma PeriodsIncrease(g: Granularity, j: int, k: int)
    requires j < k
    ensures PeriodStart(g, j) < PeriodStart(g, k)
  {
    hide StartOfDay, MonthStart;
    if g == Month {
      MonthsApart(j, k);
      DayStarts(MonthStart(j), MonthStart(k));
    } else {
      DayStarts(j, k);
    }
  }

  lemma PeriodsOrdered(g: Granularity, j: int, k: int)
    requires j <= k
    ensures PeriodStart(g, j) <= PeriodStart(g, k)
  {
    hide PeriodStart;
    if j < k {
      PeriodsIncrease(g, j, k);
    }
  }

  /** A period's number is determined by any instant in it. */
  lemma PeriodUnique(g: Granularity, t: int, k: int)
    requires PeriodStart(g, k) <= t < PeriodStart(g, k + 1)
    ensures PeriodOf(g, t) == k
  {
    hide PeriodStart, PeriodOf, Truncate;
    PeriodContains(g, t);
    var j := PeriodOf(g, t);
    if j < k { PeriodsOrdered(g, j + 1, k); }
    if k < j { PeriodsOrdered(g, k + 1, j); }
  }

  lemma NextPeriod(g: Granularity, k: int)
    ensures Next(g, PeriodStart(g, k)) == PeriodStart(g, k + 1)
    ensures Previous(g, PeriodStart(g, k)) == PeriodStart(g, k - 1)
    ensures PeriodOf(g, PeriodStart(g, k)) == k
  {
    hide StartOfDay, DayOf, DayNumber, CivilOf;
    if g == Month {
      DayOfStart(MonthStart(k));
      CivilOfMonthStart(k);
      DayNumberCarries(k / 12, k % 12 + 2);
      DayNumberCarries(k / 12, k % 12);
      assert 12 * (k / 12) + k % 12 == k;
    } else {
      DayOfStart(k);
    }
  }

  /** Stepping forward and back over aligned dates undo each other, across month lengths and leap years. */
  lemma PreviousUndoesNext(g: Granularity, t: int)
    requires Truncate(g, t) == t
    ensures Previous(g, Next(g, t)) == t && Next(g, Previous(g, t)) == t
    ensures Previous(g, t) < t < Next(g, t)
  {
    hide Truncate, Next, Previous, PeriodStart, PeriodOf;
    var k := PeriodOf(g, t);
    PeriodContains(g, t);
    NextPeriod(g, k);
    NextPeriod(g, k - 1);
    NextPeriod(g, k + 1);
    PeriodsIncrease(g, k - 1, k);
    PeriodsIncrease(g, k, k + 1);
  }

  // ---------- names and ranges ----------

  function PeriodRange(g: Granularity, k: int): Range {
    Range(PeriodStart(g, k), PeriodStart(g, k + 1))
  }

  function PeriodName(g: Granularity, k: int): string {
    PartitionName(g, PeriodStart(g, k))
  }

  /** The period starts in a year that is written with four digits. */
  predicate Nameable(g: Granularity, k: int) {
    0 <= CivilOf(DayOf(PeriodStart(g, k))).year <= 9999
  }

  lemma MonthSuffix(y: string, m: string)
    requires |y| == 4 && |m| == 2
    ensures var s := y + "_" + m + "";
            |s| == 7 && s[..4] == y && s[4] == '_' && s[5..7] == m
  {
    var s := y + "_" + m + "";
    assert s[..4] == y;
    assert s[5..7] == m;
  }

  lemma DaySuffix(y: string, m: string, d: string)
    requires |y| == 4 && |m| == |d| == 2
    ensures var s := y + "_" + m + ("_" + d);
            |s| == 10 && s[..4] == y && s[4] == '_' && s[5..7] == m && s[7] == '_' && s[8..10] == d
  {
    var s := y + "_" + m + ("_" + d);
    assert s[..4] == y;
    assert s[5..7] == m;
    assert s[8..10] == d;
  }

  lemma DigitsOf(n: nat, width: nat)
    requires (width == 2 && n < 100) || (width == 4 && n < 10_000)
    ensures |Padded(n, width)| == width && IsNumeral(Padded(n, width)) && Number(Padded(n, width)) == n
  {
    assert Pow10(2) == 100 && Pow10(4) == 100 * Pow10(2);
    NumberOfPadded(n, width);
  }

  lemma YearDigits(y: int)
    requires 0 <= y <= 9999
    ensures PrintYear(y) == Padded(y, 4)
  {
  }

  lemma SuffixRoundTrip(g: Granularity, c: Civil)
    requires ValidCivil(c) && 0 <= c.year <= 9999 && (g == Month ==> c.day == 1)
    ensures ParseSuffix(Suffix(g, c)) == Some((g, c))
  {
    hide Number, Padded, IsNumeral, PrintYear;
    YearDigits(c.year);
    DigitsOf(c.year, 4);
    DigitsOf(c.month, 2);
    DigitsOf(c.day, 2);
    if g == Month {
      MonthSuffix(Padded(c.year, 4), Padded(c.month, 2));
    } else {
      DaySuffix(Padded(c.year, 4), Padded(c.month, 2), Padded(c.day, 2));
    }
  }

  lemma CivilOfStart(g: Granularity, k: int)
    ensures var c := CivilOf(DayOf(PeriodStart(g, k)));
            && (g == Month ==> c.day == 1)
            && StartOfDay(DayNumber(c.year, c.month, c.day)) == PeriodStart(g, k)
  {
    hide CivilOf, DayNumber, StartOfDay, DayOf, MonthStart;
    if g == Month {
      DayOfStart(MonthStart(k));
      CivilOfMonthStart(k);
    } else {
      DayOfStart(k);
    }
  }

  /** The name printed for a period reads back as exactly that period. */
  lemma NameRoundTrip(g: Granularity, k: int)
    requires Nameable(g, k)
    ensures ParsePartition(PeriodName(g, k)) == Some((g, PeriodRange(g, k)))
  {
    hide CivilOf, DayNumber, StartOfDay, DayOf, ParseSuffix, Suffix, Next;
    var start := PeriodStart(g, k);
    var c := CivilOf(DayOf(start));
    CivilOfStart(g, k);
    NextPeriod(g, k);
    SuffixRoundTrip(g, c);
    var name := PeriodName(g, k);
    assert name[..|PREFIX|] == PREFIX && name[|PREFIX|..] == Suffix(g, c);
  }

  /** The name printed for an instant's period reads back as a range that holds the instant. */
  lemma NameOfInstant(g: Granularity, t: int)
    requires Nameable(g, PeriodOf(g, t))
    ensures var start := Truncate(g, t);
            && ParsePartitionBounds(PartitionName(g, start)) == Some(Range(start, Next(g, start)))
            && start <= t < Next(g, start)
  {
    hide Truncate, Next, PeriodStart, PeriodOf, Nameable, PartitionName, ParsePartition;
    PeriodContains(g, t);
    NameRoundTrip(g, PeriodOf(g, t));
    NextPeriod(g, PeriodOf(g, t));
  }

  lemma SuffixUnique(s: string)
    requires ParseSuffix(s).Some?
    ensures var (g, c) := ParseSuffix(s).value;
            ValidCivil(c) && 0 <= c.year <= 9999 && (g == Month ==> c.day == 1) && Suffix(g, c) == s
  {
    hide Number, Padded, PrintYear;
    PaddedOfNumber(s[..4]);
    PaddedOfNumber(s[5..7]);
    var y := Number(s[..4]);
    assert Pow10(4) == 100 * Pow10(2) && Pow10(2) == 100;
    YearDigits(y);
    if |s| == 7 {
      assert s == s[..4] + "_" + s[5..7] + "";
    } else {
      PaddedOfNumber(s[8..10]);
      assert s == s[..4] + "_" + s[5..7] + ("_" + s[8..10]);
    }
  }

  lemma PeriodOfCivil(g: Granularity, c: Civil)
    requires ValidCivil(c) && (g == Month ==> c.day == 1)
    ensures var start := StartOfDay(DayNumber(c.year, c.month, c.day));
            var k := PeriodOf(g, start);
            && PeriodStart(g, k) == start && CivilOf(DayOf(start)) == c
  {
    hide CivilOf, DayNumber, StartOfDay, DayOf, MonthStart;
    var day := DayNumber(c.year, c.month, c.day);
    DayOfStart(day);
    CivilOfDayNumber(c);
    if g == Month {
      DayNumberCarries(c.year, c.month);
    }
  }

  /** Every name that can be read is the one printed for the period it stands for. */
  lemma ReadableNameIsPrinted(name: string)
    requires ParsePartition(name).Some?
    ensures var (g, range) := ParsePartition(name).value;
            var k := PeriodOf(g, range.start);
            Nameable(g, k) && name == PeriodName(g, k) && range == PeriodRange(g, k)
  {
    hide CivilOf, DayNumber, StartOfDay, DayOf, ParseSuffix, Suffix, Next, PeriodOf, PeriodStart, ValidCivil;
    var suffix := name[|PREFIX|..];
    var (g, c) := ParseSuffix(suffix).value;
    SuffixUnique(suffix);
    PeriodOfCivil(g, c);
    NextPeriod(g, PeriodOf(g, StartOfDay(DayNumber(c.year, c.month, c.day))));
    assert name == PREFIX + suffix;
  }

  // ---------- what names and periods look like ----------

  lemma SuffixShape(g: Granularity, c: Civil)
    requires ValidCivil(c) && 0 <= c.year <= 9999
    ensures var s := Suffix(g, c);
            && |s| == (if g == Month then 7 else 10) && s[4] == '_'
            && Spells(s, 0, 4, c.year) && Spells(s, 5, 2, c.month)
            && (g == Day ==> s[7] == '_' && Spells(s, 8, 2, c.day))
  {
    hide Number, Padded, PrintYear;
    YearDigits(c.year);
    DigitsOf(c.year, 4);
    DigitsOf(c.month, 2);
    DigitsOf(c.day, 2);
    var y, m, d := Padded(c.year, 4), Padded(c.month, 2), Padded(c.day, 2);
    if g == Month {
      MonthSuffix(y, m);
      assert Suffix(g, c)[0..0 + 4] == y;
    } else {
      DaySuffix(y, m, d);
      assert Suffix(g, c)[0..0 + 4] == y;
    }
  }

  /** A name is syslog_logs_YYYY_MM, followed by _DD for a day. */
  lemma NameShape(g: Granularity, t: int)
    requires 0 <= CivilOf(DayOf(t)).year <= 9999
    ensures var name, c := PartitionName(g, t), CivilOf(DayOf(t));
            && |name| == (if g == Month then 19 else 22) && name[..12] == "syslog_logs_" && name[16] == '_'
            && Spells(name[12..], 0, 4, c.year) && Spells(name[12..], 5, 2, c.month)
            && (g == Day ==> name[19] == '_' && Spells(name[12..], 8, 2, c.day))
  {
    hide CivilOf, Suffix, Spells;
    var name, c := PartitionName(g, t), CivilOf(DayOf(t));
    SuffixShape(g, c);
    assert name[12..] == Suffix(g, c);
    assert name[16] == Suffix(g, c)[4];
    if g == Day {
      assert name[19] == Suffix(g, c)[7];
    }
  }

  /** A month's period lasts as many days as the Gregorian calendar gives it; a day's lasts 24 hours. */
  lemma PeriodLength(k: int)
    ensures var year, month := k / 12, k % 12 + 1;
            var leap := (year % 4 == 0 && year % 100 != 0) || year % 400 == 0;
            var days := if month == 2 then (if leap then 29 else 28)
                        else if month == 4 || month == 6 || month == 9 || month == 11 then 30 else 31;
            PeriodStart(Month, k + 1) == PeriodStart(Month, k) + days * 86_400_000_000_000
    ensures PeriodStart(Day, k + 1) == PeriodStart(Day, k) + 86_400_000_000_000
  {
    hide MonthStart, StartOfDay, DaysIn;
    MonthLength(k);
    DaysApart(MonthStart(k), DaysIn(k / 12, k % 12 + 1));
    DaysApart(k, 1);
    GregorianDays(k / 12, k % 12 + 1);
  }

  lemma DaysApart(day: int, n: int)
    ensures StartOfDay(day + n) == StartOfDay(day) + n * 86_400_000_000_000
  {
  }

  lemma GregorianDays(year: int, month: int)
    requires 1 <= month <= 12
    ensures var leap := (year % 4 == 0 && year % 100 != 0) || year % 400 == 0;
            DaysIn(year, month) == if month == 2 then (if leap then 29 else 28)
                                   else if month == 4 || month == 6 || month == 9 || month == 11 then 30 else 31
  {
    if year % 400 == 0 {
      FourHundreds(year);
    }
  }

  lemma FourHundreds(year: int)
    requires year % 400 == 0
    ensures year % 4 == 0 && year % 100 == 0
  {
    var q := year / 400;
    assert year == 400 * q;
    Div100(year, 4 * q, 0);
    Div4(year, 100 * q, 0);
  }

  /** Day 719528 is 1 January 1970. */
  lemma Epoch()
    ensures DayNumber(1970, 1, 1) == 719_528 && DayNumber(2000, 3, 1) == DayNumber(2000, 2, 29) + 1
  {
    DayNumberInRange(1970, 1, 1);
    DayNumberInRange(2000, 3, 1);
    DayNumberInRange(2000, 2, 29);
  }
}
