/** Proleptic Gregorian civil dates, their day numbers, and the "Week of
    <Monday>" label that both the fetch stage and the dashboard attach to a
    timestamp (`week_of_iso`). Day numbers follow Python's `date.toordinal()`
    (0001-01-01 is day 1) and weekdays follow pandas' `dayofweek` (Monday is
    0, Sunday 6). Dates span Python's `date.min` .. `date.max`. */
module Calendar {
  import opened Wrappers

  datatype Date = Date(year: int, month: int, day: int)

  const MinYear := 1
  const MaxYear := 9999
  const FirstDate := Date(1, 1, 1)
  const LastDate := Date(9999, 12, 31)
  const LastOrdinal := 3652059

  predicate IsLeapYear(y: int) {
    y % 4 == 0 && (y % 100 != 0 || y % 400 == 0)
  }

  function DaysInMonth(y: int, m: int): int
    requires 1 <= m <= 12
  {
    if m == 2 then (if IsLeapYear(y) then 29 else 28)
    else if m == 4 || m == 6 || m == 9 || m == 11 then 30
    else 31
  }

  predicate IsValid(d: Date) {
    MinYear <= d.year <= MaxYear && 1 <= d.month <= 12 && 1 <= d.day <= DaysInMonth(d.year, d.month)
  }

  function YearDays(y: int): int {
    if IsLeapYear(y) then 366 else 365
  }

  /** Days in the years before `y`, counted year by year. */
  function DaysBeforeYear(y: int): int
    requires y >= 1
  {
    if y == 1 then 0 else DaysBeforeYear(y - 1) + YearDays(y - 1)
  }

  /** Days in the months of year `y` before month `m`. */
  function DaysBeforeMonth(y: int, m: int): int
    requires 1 <= m <= 12
  {
    if m == 1 then 0 else DaysBeforeMonth(y, m - 1) + DaysInMonth(y, m - 1)
  }

  /** The twelve months fill the year exactly. */
  lemma MonthsFillYear(y: int)
    ensures DaysBeforeMonth(y, 12) + DaysInMonth(y, 12) == YearDays(y)
  {
    assert DaysBeforeMonth(y, 2) == 31;
    assert DaysBeforeMonth(y, 3) == 31 + DaysInMonth(y, 2);
    assert DaysBeforeMonth(y, 4) == 62 + DaysInMonth(y, 2);
    assert DaysBeforeMonth(y, 5) == 92 + DaysInMonth(y, 2);
    assert DaysBeforeMonth(y, 6) == 123 + DaysInMonth(y, 2);
    assert DaysBeforeMonth(y, 7) == 153 + DaysInMonth(y, 2);
    assert DaysBeforeMonth(y, 8) == 184 + DaysInMonth(y, 2);
    assert DaysBeforeMonth(y, 9) == 215 + DaysInMonth(y, 2);
    assert DaysBeforeMonth(y, 10) == 245 + DaysInMonth(y, 2);
    assert DaysBeforeMonth(y, 11) == 276 + DaysInMonth(y, 2);
    assert DaysBeforeMonth(y, 12) == 306 + DaysInMonth(y, 2);
  }

  /** The day number of a date: Python's `date.toordinal()`. */
  function Ordinal(d: Date): int
    requires IsValid(d)
  {
    DaysBeforeYear(d.year) + DaysBeforeMonth(d.year, d.month) + d.day
  }

  /** pandas' `Timestamp.dayofweek`: Monday is 0 and Sunday is 6
      (0001-01-01 was a Monday). */
  function Weekday(d: Date): int
    requires IsValid(d)
  {
    (Ordinal(d) + 6) % 7
  }

  function NextDay(d: Date): Date
    requires IsValid(d) && d != LastDate
  {
    if d.day < DaysInMonth(d.year, d.month) then Date(d.year, d.month, d.day + 1)
    else if d.month < 12 then Date(d.year, d.month + 1, 1)
    else Date(d.year + 1, 1, 1)
  }

  function PrevDay(d: Date): Date
    requires IsValid(d) && d != FirstDate
  {
    if d.day > 1 then Date(d.year, d.month, d.day - 1)
    else if d.month > 1 then Date(d.year, d.month - 1, DaysInMonth(d.year, d.month - 1))
    else Date(d.year - 1, 12, 31)
  }

  /** Stepping from `y - 1` to `y` raises the quotient by 4 exactly when 4
      divides `y`; likewise for 100 and 400 below. */
  lemma QuotientStep4(y: int)
    requires y >= 1
    ensures y / 4 - (y - 1) / 4 == if y % 4 == 0 then 1 else 0
  {
    var q, r := (y - 1) / 4, (y - 1) % 4;
    if r == 3 {
      assert y == 4 * (q + 1) + 0;
    } else {
      assert y == 4 * q + (r + 1);
    }
  }

  lemma QuotientStep100(y: int)
    requires y >= 1
    ensures y / 100 - (y - 1) / 100 == if y % 100 == 0 then 1 else 0
  {
    var q, r := (y - 1) / 100, (y - 1) % 100;
    if r == 99 {
      assert y == 100 * (q + 1) + 0;
    } else {
      assert y == 100 * q + (r + 1);
    }
  }

  lemma QuotientStep400(y: int)
    requires y >= 1
    ensures y / 400 - (y - 1) / 400 == if y % 400 == 0 then 1 else 0
  {
    var q, r := (y - 1) / 400, (y - 1) % 400;
    if r == 399 {
      assert y == 400 * (q + 1) + 0;
    } else {
      assert y == 400 * q + (r + 1);
    }
  }

  lemma QuotientSteps(y: int)
    requires y >= 1
    ensures y / 4 - (y - 1) / 4 == if y % 4 == 0 then 1 else 0
    ensures y / 100 - (y - 1) / 100 == if y % 100 == 0 then 1 else 0
    ensures y / 400 - (y - 1) / 400 == if y % 400 == 0 then 1 else 0
    ensures y % 400 == 0 ==> y % 100 == 0
    ensures y % 100 == 0 ==> y % 4 == 0
  {
    QuotientStep4(y);
    QuotientStep100(y);
    QuotientStep400(y);
    if y % 400 == 0 {
      var q := y / 400;
      assert y == 100 * (4 * q) + 0;
    }
    if y % 100 == 0 {
      var q := y / 100;
      assert y == 4 * (25 * q) + 0;
    }
  }

  lemma {:induction false} DaysBeforeYearRange(y: int)
    requires y >= 1
    ensures 0 <= DaysBeforeYear(y)
  {
    if y > 1 {
      DaysBeforeYearRange(y - 1);
    }
  }

  /** The closed form Python's `datetime` module uses for the days before
      year `y`: 365 per year plus the leap days of the Gregorian rule. */
  lemma {:induction false} DaysBeforeYearClosedForm(y: int)
    requires y >= 1
    ensures var p := y - 1; DaysBeforeYear(y) == 365 * p + p / 4 - p / 100 + p / 400
  {
    if y > 1 {
      DaysBeforeYearClosedForm(y - 1);
      QuotientSteps(y - 1);
    }
  }

  /** 9999-12-31 is day 3652059. */
  lemma LastOrdinalValue()
    ensures IsValid(LastDate) && Ordinal(LastDate) == LastOrdinal
  {
    DaysBeforeYearClosedForm(MaxYear);
  }

  /** Within a month, the next day is one day number later. */
  lemma NextDayInMonth(d: Date)
    requires IsValid(d) && d.day < DaysInMonth(d.year, d.month)
    ensures NextDay(d) == Date(d.year, d.month, d.day + 1)
    ensures IsValid(NextDay(d)) && Ordinal(NextDay(d)) == Ordinal(d) + 1
  {
  }

  /** From the last day of a month other than December to the 1st of the next. */
  lemma NextDayNewMonth(d: Date)
    requires IsValid(d) && d.day == DaysInMonth(d.year, d.month) && d.month < 12
    ensures NextDay(d) == Date(d.year, d.month + 1, 1)
    ensures IsValid(NextDay(d)) && Ordinal(NextDay(d)) == Ordinal(d) + 1
  {
    assert DaysBeforeMonth(d.year, d.month + 1) == DaysBeforeMonth(d.year, d.month) + d.day;
  }

  /** From the 31st of December to the 1st of January. */
  lemma NextDayNewYear(d: Date)
    requires IsValid(d) && d.month == 12 && d.day == 31 && d.year < MaxYear
    ensures NextDay(d) == Date(d.year + 1, 1, 1)
    ensures IsValid(NextDay(d)) && Ordinal(NextDay(d)) == Ordinal(d) + 1
  {
    MonthsFillYear(d.year);
    assert DaysBeforeYear(d.year + 1) == DaysBeforeYear(d.year) + YearDays(d.year);
  }

  lemma NextDayStep(d: Date)
    requires IsValid(d) && d != LastDate
    ensures IsValid(NextDay(d))
    ensures Ordinal(NextDay(d)) == Ordinal(d) + 1
    ensures NextDay(d) != FirstDate && PrevDay(NextDay(d)) == d
  {
    if d.day < DaysInMonth(d.year, d.month) {
      NextDayInMonth(d);
    } else if d.month < 12 {
      NextDayNewMonth(d);
    } else {
      NextDayNewYear(d);
    }
  }

  lemma PrevDayStep(d: Date)
    requires IsValid(d) && d != FirstDate
    ensures IsValid(PrevDay(d))
    ensures Ordinal(PrevDay(d)) == Ordinal(d) - 1
    ensures PrevDay(d) != LastDate && NextDay(PrevDay(d)) == d
  {
    var p := PrevDay(d);
    if d.day > 1 {
      assert p == Date(d.year, d.month, d.day - 1);
      NextDayInMonth(p);
      assert NextDay(p) == d;
    } else if d.month > 1 {
      assert p == Date(d.year, d.month - 1, DaysInMonth(d.year, d.month - 1));
      NextDayNewMonth(p);
      assert NextDay(p) == d;
    } else {
      assert p == Date(d.year - 1, 12, 31);
      NextDayNewYear(p);
      assert NextDay(p) == d;
    }
  }

  lemma {:induction false} DaysBeforeMonthRange(y: int, m: int)
    requires 1 <= m <= 12
    ensures 0 <= DaysBeforeMonth(y, m)
  {
    if m > 1 {
      DaysBeforeMonthRange(y, m - 1);
    }
  }

  /** The months before `m` and month `m` itself fit inside the year. */
  lemma {:induction false} MonthsWithinYear(y: int, m: int)
    requires 1 <= m <= 12
    ensures DaysBeforeMonth(y, m) + DaysInMonth(y, m) <= YearDays(y)
    decreases 12 - m
  {
    if m == 12 {
      MonthsFillYear(y);
    } else {
      MonthsWithinYear(y, m + 1);
    }
  }

  /** Later years end no later than 9999 does. */
  lemma {:induction false} YearsWithinRange(y: int)
    requires MinYear <= y <= MaxYear
    ensures DaysBeforeYear(y) + YearDays(y) <= DaysBeforeYear(MaxYear) + YearDays(MaxYear)
    decreases MaxYear - y
  {
    if y < MaxYear {
      YearsWithinRange(y + 1);
      assert DaysBeforeYear(y + 1) == DaysBeforeYear(y) + YearDays(y);
    }
  }

  /** Every valid date has a day number between 1 and `LastOrdinal`. */
  lemma OrdinalRange(d: Date)
    requires IsValid(d)
    ensures 1 <= Ordinal(d) <= LastOrdinal
  {
    DaysBeforeYearRange(d.year);
    DaysBeforeMonthRange(d.year, d.month);
    MonthsWithinYear(d.year, d.month);
    YearsWithinRange(d.year);
    LastOrdinalValue();
    MonthsFillYear(MaxYear);
    assert Ordinal(LastDate) == DaysBeforeYear(MaxYear) + YearDays(MaxYear);
  }

  /** The date with day number `n`: the reverse of `Ordinal`, defined by
      counting days forward from 0001-01-01. */
  function FromOrdinal(n: int): (d: Date)
    requires 1 <= n <= LastOrdinal
    ensures IsValid(d) && Ordinal(d) == n
    decreases n
  {
    if n == 1 then FirstDate
    else
      var p := FromOrdinal(n - 1);
      LastOrdinalValue();
      assert p != LastDate;
      NextDayStep(p);
      NextDay(p)
  }

  lemma FromOrdinalStep(n: int)
    requires 1 < n <= LastOrdinal
    ensures FromOrdinal(n - 1) != LastDate
    ensures FromOrdinal(n) == NextDay(FromOrdinal(n - 1))
  {
    LastOrdinalValue();
  }

  /** Day numbers identify dates: the other round trip. */
  lemma {:induction false} FromOrdinalOfOrdinal(d: Date)
    requires IsValid(d)
    ensures 1 <= Ordinal(d) <= LastOrdinal
    ensures FromOrdinal(Ordinal(d)) == d
    decreases Ordinal(d)
  {
    OrdinalRange(d);
    if d != FirstDate {
      var p := PrevDay(d);
      PrevDayStep(d);
      FromOrdinalOfOrdinal(p);
      var n := Ordinal(d);
      FromOrdinalStep(n);
      assert FromOrdinal(n - 1) == p;
    }
  }

  /** Different dates have different day numbers. */
  lemma OrdinalInjective(a: Date, b: Date)
    requires IsValid(a) && IsValid(b) && Ordinal(a) == Ordinal(b)
    ensures a == b
  {
    FromOrdinalOfOrdinal(a);
    FromOrdinalOfOrdinal(b);
  }

  lemma WeekStart(n: int)
    requires n >= 1
    ensures 0 <= (n + 6) % 7 <= 6
    ensures (n - (n + 6) % 7 + 6) % 7 == 0
    ensures n - (n + 6) % 7 >= 1
  {
  }

  lemma SameWeekStart(a: int, b: int, n: int)
    requires (a + 6) % 7 == 0 && (b + 6) % 7 == 0
    requires n - 6 <= a <= n && n - 6 <= b <= n
    ensures a == b
  {
  }

  /** `dt - Timedelta(days=dt.dayofweek)`: the Monday that starts the week of
      `d`, which is a Monday, is valid, and lies 0 to 6 days before `d`. */
  function MondayOf(d: Date): (m: Date)
    requires IsValid(d)
    ensures IsValid(m) && Weekday(m) == 0
    ensures Ordinal(d) - Ordinal(m) == Weekday(d)
    ensures 0 <= Ordinal(d) - Ordinal(m) <= 6
  {
    OrdinalRange(d);
    WeekStart(Ordinal(d));
    var m := FromOrdinal(Ordinal(d) - Weekday(d));
    MondayAt(d, m);
    m
  }

  lemma MondayAt(d: Date, m: Date)
    requires IsValid(d) && IsValid(m) && Ordinal(m) == Ordinal(d) - Weekday(d)
    ensures Weekday(m) == 0
  {
    OrdinalRange(d);
    WeekStart(Ordinal(d));
  }

  /** `MondayOf` agrees with an independent description: the only Monday at
      most six days before `d`. */
  lemma MondayOfUnique(d: Date, m: Date)
    requires IsValid(d) && IsValid(m)
    requires Weekday(m) == 0 && 0 <= Ordinal(d) - Ordinal(m) <= 6
    ensures m == MondayOf(d)
  {
    var mo := MondayOf(d);
    var a, b, n := Ordinal(m), Ordinal(mo), Ordinal(d);
    assert (a + 6) % 7 == Weekday(m) == 0;
    assert (b + 6) % 7 == Weekday(mo) == 0;
    assert n - 6 <= a <= n && n - 6 <= b <= n;
    SameWeekStart(a, b, n);
    OrdinalInjective(m, mo);
  }

  /** A Monday is its own week's Monday. */
  lemma MondayOfMonday(d: Date)
    requires IsValid(d)
    ensures MondayOf(MondayOf(d)) == MondayOf(d)
  {
    MondayOfUnique(MondayOf(d), MondayOf(d));
  }

  // ---------------------------------------------------------------------------
  // ISO text

  function DigitChar(n: int): char
    requires 0 <= n < 10
  {
    ('0' as int + n) as char
  }

  predicate IsDigit(c: char) {
    '0' <= c <= '9'
  }

  function DigitValue(c: char): int
    requires IsDigit(c)
  {
    c as int - '0' as int
  }

  function Pow10(w: nat): nat {
    if w == 0 then 1 else 10 * Pow10(w - 1)
  }

  /** The last `width` decimal digits of `n`, zero-padded. */
  function Digits(n: nat, width: nat): (s: string)
    ensures |s| == width
    ensures forall k :: 0 <= k < |s| ==> IsDigit(s[k])
  {
    if width == 0 then "" else Digits(n / 10, width - 1) + [DigitChar(n % 10)]
  }

  /** The number a string of decimal digits spells, or `None`. */
  function ParseDigits(s: string): Option<nat> {
    if s == [] then Some(0)
    else if !IsDigit(s[|s| - 1]) then None
    else match ParseDigits(s[..|s| - 1])
      case None => None
      case Some(v) => Some(10 * v + DigitValue(s[|s| - 1]))
  }

  lemma {:induction false} ParseDigitsOfDigits(n: nat, width: nat)
    requires n < Pow10(width)
    ensures ParseDigits(Digits(n, width)) == Some(n)
  {
    if width > 0 {
      var s := Digits(n, width);
      ParseDigitsOfDigits(n / 10, width - 1);
      assert s[..|s| - 1] == Digits(n / 10, width - 1);
      assert DigitValue(s[|s| - 1]) == n % 10;
    }
  }

  /** Python's `date.isoformat()`: `YYYY-MM-DD`. */
  function IsoDate(d: Date): (s: string)
    requires IsValid(d)
    ensures |s| == 10
  {
    Digits(d.year, 4) + "-" + Digits(d.month, 2) + "-" + Digits(d.day, 2)
  }

  /** Reads `YYYY-MM-DD` back; anything else, or an impossible date, is `None`. */
  function ParseIsoDate(s: string): (r: Option<Date>)
    ensures r.Some? ==> IsValid(r.value)
  {
    if |s| != 10 || s[4] != '-' || s[7] != '-' then None
    else match (ParseDigits(s[..4]), ParseDigits(s[5..7]), ParseDigits(s[8..]))
      case (Some(y), Some(m), Some(d)) =>
        if IsValid(Date(y, m, d)) then Some(Date(y, m, d)) else None
      case _ => None
  }

  /** The ISO text of a date reads back as that date. */
  lemma ParseIsoDateOfIsoDate(d: Date)
    requires IsValid(d)
    ensures ParseIsoDate(IsoDate(d)) == Some(d)
  {
    var s := IsoDate(d);
    assert Pow10(2) == 100 && Pow10(4) == 10000;
    ParseDigitsOfDigits(d.year, 4);
    ParseDigitsOfDigits(d.month, 2);
    ParseDigitsOfDigits(d.day, 2);
    assert s[..4] == Digits(d.year, 4);
    assert s[5..7] == Digits(d.month, 2);
    assert s[8..] == Digits(d.day, 2);
  }

  // ---------------------------------------------------------------------------
  // Week labels

  /** The time read by one call of `now_iso()`: its ISO text and the civil
      date `pd.to_datetime` reads from it (`None` when it does not parse). */
  datatype Clock = Clock(iso: string, date: Option<Date>)

  predicate ClockValid(c: Clock) {
    c.date.Some? ==> IsValid(c.date.value)
  }

  const WeekPrefix := "Week of "

  /** `week_of_iso`: "Week of " and the ISO date of the Monday of the week of
      the parsed timestamp's own calendar date; `""` when parsing failed. */
  function WeekOfIso(parsed: Option<Date>): string
    requires parsed.Some? ==> IsValid(parsed.value)
  {
    match parsed
    case None => ""
    case Some(d) => WeekPrefix + IsoDate(MondayOf(d))
  }

  /** Labels the Monday of a week with that week: feeding the date in the
      label back to `week_of_iso` gives the same label. */
  lemma WeekOfIsoIdempotent(d: Date)
    requires IsValid(d)
    ensures WeekOfIso(Some(d)) == WeekPrefix + IsoDate(MondayOf(d))
    ensures WeekOfIso(ParseIsoDate(WeekOfIso(Some(d))[|WeekPrefix|..])) == WeekOfIso(Some(d))
  {
    var text := WeekOfIso(Some(d));
    assert text[|WeekPrefix|..] == IsoDate(MondayOf(d));
    ParseIsoDateOfIsoDate(MondayOf(d));
    MondayOfMonday(d);
  }

  /** Two dates get the same label exactly when they share a Monday. */
  lemma WeekOfIsoSameWeek(d: Date, e: Date)
    requires IsValid(d) && IsValid(e)
    ensures WeekOfIso(Some(d)) == WeekOfIso(Some(e)) <==> MondayOf(d) == MondayOf(e)
  {
    if WeekOfIso(Some(d)) == WeekOfIso(Some(e)) {
      var a, b := IsoDate(MondayOf(d)), IsoDate(MondayOf(e));
      assert a == WeekOfIso(Some(d))[|WeekPrefix|..];
      assert b == WeekOfIso(Some(e))[|WeekPrefix|..];
      ParseIsoDateOfIsoDate(MondayOf(d));
      ParseIsoDateOfIsoDate(MondayOf(e));
    }
  }

  lemma ExampleOrdinals(wed: Date, mon: Date)
    requires wed == Date(2025, 3, 12) && mon == Date(2025, 3, 10)
    ensures IsValid(wed) && IsValid(mon)
    ensures Ordinal(wed) == 739322 && Ordinal(mon) == 739320 && Weekday(mon) == 0
    ensures IsoDate(mon) == "2025-03-10"
  {
    DaysBeforeYearClosedForm(wed.year);
    assert IsoDate(mon) == "2025-03-10";
  }

  /** A Wednesday, 2025-03-12, belongs to the week of Monday 2025-03-10. */
  lemma WeekOfWednesdayExample(wed: Date, mon: Date)
    requires wed == Date(2025, 3, 12) && mon == Date(2025, 3, 10)
    ensures WeekOfIso(Some(wed)) == WeekPrefix + "2025-03-10"
  {
    ExampleOrdinals(wed, mon);
    MondayOfUnique(wed, mon);
  }
}
