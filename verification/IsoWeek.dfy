/**
 ISO 8601 week dates (include/spdlog/fmt/bundled/chrono.h, tm_writer) against the
 calendar: the week of a day is numbered within the year of its Thursday
 (calendar week number, section 2.2.10 of ISO 8601:2004). C++ division truncates.
 */
module IsoWeek {

  // ---- The calendar --------------------------------------------------------

  predicate IsLeap(year: int)
  {
    year % 4 == 0 && (year % 100 != 0 || year % 400 == 0)
  }

  function YearLength(year: int): int
  {
    if IsLeap(year) then 366 else 365
  }

  /** Days before 1 January of a year, counted from the Monday that starts year 1. */
  function DaysBefore(year: int): int
  {
    365 * (year - 1) + (year - 1) / 4 - (year - 1) / 100 + (year - 1) / 400
  }

  /** 0 is Sunday, as in tm_wday. */
  function Weekday(day: int): int
  {
    (day + 1) % 7
  }

  /** DaysBefore is the calendar: a year starts where the one before it ended. */
  lemma YearsAreAdjacent(year: int)
    ensures DaysBefore(year + 1) == DaysBefore(year) + YearLength(year)
    ensures DaysBefore(1) == 0 && Weekday(DaysBefore(1)) == 1
  {
    Quotients(year);
    Multiples(year);
  }

  lemma Quotients(year: int)
    ensures year / 4 == (year - 1) / 4 + if year % 4 == 0 then 1 else 0
    ensures year / 100 == (year - 1) / 100 + if year % 100 == 0 then 1 else 0
    ensures year / 400 == (year - 1) / 400 + if year % 400 == 0 then 1 else 0
  {}

  lemma Multiples(year: int)
    ensures year % 100 == 0 ==> year % 4 == 0
    ensures year % 400 == 0 ==> year % 100 == 0
  {}

  /** The Thursday of the Monday-to-Sunday week of a day. */
  function ThursdayOf(day: int): int
  {
    day - day % 7 + 3
  }

  /** A day belongs to a year. */
  predicate InYear(day: int, year: int)
  {
    DaysBefore(year) <= day < DaysBefore(year + 1)
  }

  /** How many Thursdays the first n days of a year have. */
  function Thursdays(year: int, n: nat): nat
  {
    if n == 0 then 0
    else Thursdays(year, n - 1) + if Weekday(DaysBefore(year) + n - 1) == 4 then 1 else 0
  }

  // ---- tm_writer -----------------------------------------------------------

  /** The remainder of C++'s truncating division. */
  function CppRem(x: int, n: int): int
    requires n > 0
  {
    if x >= 0 then x % n else -((-x) % n)
  }

  function CppDiv(x: int, n: int): int
    requires n > 0
  {
    if x >= 0 then x / n else -((-x) / n)
  }

  function DecemberDigit(year: int): int
  {
    CppRem(year + CppDiv(year, 4) - CppDiv(year, 100) + CppDiv(year, 400), 7)
  }

  function IsoYearWeeks(year: int): int
  {
    52 + if DecemberDigit(year) == 4 || DecemberDigit(year - 1) == 3 then 1 else 0
  }

  function IsoWeekNum(yday: int, wday: int): int
  {
    CppDiv(yday + 11 - (if wday == 0 then 7 else wday), 7)
  }

  /** A broken-down date: tm_year counted from year 0, tm_yday, tm_wday. */
  datatype Date = Date(year: int, yday: int, wday: int)
  {
    function Day(): int {
      DaysBefore(year) + yday
    }

    /** The weekday and the day of the year fit together. */
    predicate Consistent() {
      0 <= yday < YearLength(year) && wday == Weekday(Day())
    }

    function IsoWeekYear(): int {
      var w := IsoWeekNum(yday, wday);
      if w < 1 then year - 1 else if w > IsoYearWeeks(year) then year + 1 else year
    }

    function IsoWeekOfYear(): int {
      var w := IsoWeekNum(yday, wday);
      if w < 1 then IsoYearWeeks(year - 1) else if w > IsoYearWeeks(year) then 1 else w
    }
  }

  // ---- Closed forms --------------------------------------------------------

  /** The weekday of 31 December of a non-negative year, counted from Sunday. */
  lemma DecemberDigitIsWeekday(year: int)
    requires year >= 0
    ensures DecemberDigit(year) == Weekday(DaysBefore(year + 1) - 1) == DaysBefore(year + 1) % 7
  {
    var s := year + year / 4 - year / 100 + year / 400;
    assert s >= 0;
    assert DaysBefore(year + 1) == 7 * (52 * year) + s;
    AddSevens(s, 52 * year);
  }

  lemma AddSevens(x: int, k: int)
    ensures (7 * k + x) % 7 == x % 7
  {}

  /** How far into a Friday-to-Thursday week a year starts. */
  function Offset(year: int): int
  {
    (DaysBefore(year) % 7 + 3) % 7
  }

  lemma {:induction false} CountThursdays(year: int, n: nat)
    ensures Thursdays(year, n) == (n + Offset(year)) / 7
    ensures 0 <= Offset(year) < 7
  {
    if n > 0 {
      CountThursdays(year, n - 1);
      OneMoreDay(DaysBefore(year), n - 1);
    }
  }

  lemma OneMoreDay(start: int, n: nat)
    ensures (n + 1 + (start % 7 + 3) % 7) / 7
         == (n + (start % 7 + 3) % 7) / 7 + if Weekday(start + n) == 4 then 1 else 0
  {
    var o := (start % 7 + 3) % 7;
    assert (start + n) % 7 == (start % 7 + n) % 7;
    assert Weekday(start + n) == 4 <==> (start % 7 + n) % 7 == 3;
    assert (start % 7 + n) % 7 == 3 <==> (n + o) % 7 == 6;
  }

  /** A year has 53 Thursdays exactly when it starts or ends on one. */
  lemma ThursdaysOfYear(year: int)
    ensures Thursdays(year, YearLength(year))
         == 52 + if DaysBefore(year) % 7 == 3 || DaysBefore(year + 1) % 7 == 4 then 1 else 0
  {
    CountThursdays(year, YearLength(year));
    YearsAreAdjacent(year);
    hide DaysBefore;
    EndOfYear(DaysBefore(year), YearLength(year));
  }

  lemma EndOfYear(start: int, length: int)
    requires length == 365 || length == 366
    ensures (length + (start % 7 + 3) % 7) / 7 == 52 + if start % 7 == 3 || (start + length) % 7 == 4 then 1 else 0
  {
    var s := start % 7;
    assert (start + length) % 7 == (s + length) % 7;
  }

  /** For every year from 1 on, iso_year_weeks counts Thursdays. */
  lemma YearWeeksAreThursdays(year: int)
    requires year >= 1
    ensures IsoYearWeeks(year) == Thursdays(year, YearLength(year))
  {
    DecemberDigitIsWeekday(year);
    DecemberDigitIsWeekday(year - 1);
    ThursdaysOfYear(year);
  }

  /** Before, truncating division makes it 52: right exactly when the year neither starts nor ends on a Thursday. */
  lemma YearWeeksBeforeYearOne(year: int)
    requires year <= 0
    ensures IsoYearWeeks(year) == 52
    ensures IsoYearWeeks(year) == Thursdays(year, YearLength(year))
       <==> DaysBefore(year) % 7 != 3 && DaysBefore(year + 1) % 7 != 4
  {
    NotPositive(year);
    NotPositive(year - 1);
    ThursdaysOfYear(year);
  }

  lemma NotPositive(year: int)
    requires year <= 0
    ensures DecemberDigit(year) <= 0
  {
    assert year + CppDiv(year, 4) - CppDiv(year, 100) + CppDiv(year, 400) <= 0;
  }

  lemma DaysOfYearMinusTwo()
    ensures DaysBefore(-2) == -1096 && DaysBefore(-1) == -731 && YearLength(-2) == 365
  {}

  /** Year -2 has 53 weeks; iso_year_weeks says 52. */
  lemma YearMinusTwo()
    ensures IsoYearWeeks(-2) == 52 && Thursdays(-2, YearLength(-2)) == 53
  {
    DaysOfYearMinusTwo();
    hide *;
    YearWeeksBeforeYearOne(-2);
    ThursdaysOfYear(-2);
  }

  // ---- The week of a date --------------------------------------------------

  /** iso_week_num counts the Thursdays of the year up to the Thursday at hand. */
  lemma WeekNumber(d: Date)
    requires d.Consistent()
    ensures var t := ThursdayOf(d.Day()) - DaysBefore(d.year);
      && -3 <= t < YearLength(d.year) + 3 && (t + 1 + Offset(d.year)) % 7 == 0
      && IsoWeekNum(d.yday, d.wday) == (t + 7) / 7 == (t + 1 + Offset(d.year)) / 7
  {
    hide DaysBefore, YearLength;
    WeekNumberFrom(DaysBefore(d.year), d.yday);
  }

  lemma WeekNumberFrom(start: int, yday: int)
    requires yday >= 0
    ensures var t, o := ThursdayOf(start + yday) - start, (start % 7 + 3) % 7;
      && yday - 3 <= t <= yday + 3 && (t + 1 + o) % 7 == 0
      && IsoWeekNum(yday, Weekday(start + yday)) == (t + 7) / 7 == (t + 1 + o) / 7
  {
    var a, s := start / 7, start % 7;
    var b, m := (start + yday) / 7, (start + yday) % 7;
    var t, o := yday - m + 3, if s < 4 then s + 3 else s - 4;
    var k := b - a + if s < 4 then 1 else 0;
    assert t + 1 + o == 7 * k;
    AddSevens(0, k);
    Sevens(t + 7, k, 6 - o);
    Sevens(t + 1 + o, k, 0);
    assert Weekday(start + yday) == if m == 6 then 0 else m + 1 by {
      AddSevens(m + 1, b);
    }
  }

  lemma Sevens(x: int, k: int, r: int)
    requires x == 7 * k + r && 0 <= r < 7
    ensures x / 7 == k
  {}

  /**
   The week year is the year of the Thursday in the date's week, and the week
   number says which of that year's Thursdays it is.
   */
  ghost predicate NamesThursday(d: Date)
  {
    var t, y := ThursdayOf(d.Day()), d.IsoWeekYear();
    InYear(t, y) && d.IsoWeekOfYear() == Thursdays(y, t - DaysBefore(y) + 1)
  }

  predicate StartsOrEndsOnThursday(year: int)
  {
    DaysBefore(year) % 7 == 3 || DaysBefore(year + 1) % 7 == 4
  }

  /** Before year 1: a week of a year with 53 Thursdays that is taken to have 52. */
  predicate Miscounted(d: Date)
  {
    var w := IsoWeekNum(d.yday, d.wday);
    d.year <= 0 && ((w < 1 && StartsOrEndsOnThursday(d.year - 1)) || (w == 53 && StartsOrEndsOnThursday(d.year)))
  }

  lemma FromYearOne(d: Date, t: int)
    requires d.Consistent() && d.year >= 1 && t == ThursdayOf(d.Day()) - DaysBefore(d.year)
    requires -3 <= t < YearLength(d.year) + 3 && (t + 1 + Offset(d.year)) % 7 == 0
    requires IsoWeekNum(d.yday, d.wday) == (t + 7) / 7 == (t + 1 + Offset(d.year)) / 7
    ensures NamesThursday(d) && !Miscounted(d)
  {
    hide DaysBefore, Thursdays, IsoYearWeeks, IsoWeekNum, ThursdayOf, Offset, YearLength, Date.Consistent;
    if t < 0 {
      InYearBefore(d, t);
    } else if t < YearLength(d.year) {
      InSameYear(d, t);
    } else {
      InYearAfter(d, t);
    }
  }

  lemma EarlyBefore(d: Date, t: int)
    requires d.year <= 0 && t == ThursdayOf(d.Day()) - DaysBefore(d.year) && -3 <= t < 0
    requires (t + 1 + Offset(d.year)) % 7 == 0 && IsoWeekNum(d.yday, d.wday) == (t + 7) / 7
    ensures NamesThursday(d) <==> !Miscounted(d)
  {
    hide DaysBefore, Thursdays, IsoYearWeeks, IsoWeekNum, ThursdayOf, Offset, YearLength;
    var y := d.year - 1;
    YearAtLeast365(y);
    YearsAreAdjacent(y);
    YearWeeksBeforeYearOne(y);
    ThursdaysOfYear(y);
    LastCount(y, t);
    assert d.IsoWeekYear() == y;
  }

  lemma EarlyWithin(d: Date, t: int)
    requires d.year <= 0 && t == ThursdayOf(d.Day()) - DaysBefore(d.year) && 0 <= t < YearLength(d.year)
    requires (t + 1 + Offset(d.year)) % 7 == 0 && IsoWeekNum(d.yday, d.wday) == (t + 1 + Offset(d.year)) / 7
    ensures NamesThursday(d) <==> !Miscounted(d)
  {
    hide DaysBefore, Thursdays, IsoYearWeeks, IsoWeekNum, ThursdayOf, Offset, YearLength;
    YearsAreAdjacent(d.year);
    YearWeeksBeforeYearOne(d.year);
    ThursdaysOfYear(d.year);
    CountThursdays(d.year, YearLength(d.year));
    CountThursdays(d.year, t + 1);
  }

  lemma EarlyAfter(d: Date, t: int)
    requires d.year <= 0 && t == ThursdayOf(d.Day()) - DaysBefore(d.year)
    requires YearLength(d.year) <= t < YearLength(d.year) + 3
    requires (t + 1 + Offset(d.year)) % 7 == 0 && IsoWeekNum(d.yday, d.wday) == (t + 1 + Offset(d.year)) / 7
    ensures NamesThursday(d) && !Miscounted(d)
  {
    hide DaysBefore, Thursdays, IsoYearWeeks, IsoWeekNum, ThursdayOf, Offset, YearLength;
    var y := d.year;
    YearsAreAdjacent(y);
    YearsAreAdjacent(y + 1);
    YearAtLeast365(y);
    YearAtLeast365(y + 1);
    YearWeeksBeforeYearOne(y);
    ThursdaysOfYear(y);
    CountThursdays(y, YearLength(y));
    FirstCount(y, t);
    assert IsoWeekNum(d.yday, d.wday) == Thursdays(y, YearLength(y)) + 1;
  }

  lemma InYearBefore(d: Date, t: int)
    requires d.Consistent() && d.year >= 1 && t == ThursdayOf(d.Day()) - DaysBefore(d.year) && -3 <= t < 0
    requires (t + 1 + Offset(d.year)) % 7 == 0 && IsoWeekNum(d.yday, d.wday) == (t + 7) / 7
    ensures InYear(t + DaysBefore(d.year), d.IsoWeekYear())
    ensures d.IsoWeekOfYear() == Thursdays(d.IsoWeekYear(), t + DaysBefore(d.year) - DaysBefore(d.IsoWeekYear()) + 1)
  {
    hide DaysBefore, Thursdays, IsoYearWeeks, IsoWeekNum, ThursdayOf, Offset;
    YearsAreAdjacent(d.year - 1);
    LastThursday(d.year, t);
  }

  lemma InSameYear(d: Date, t: int)
    requires d.Consistent() && d.year >= 1 && t == ThursdayOf(d.Day()) - DaysBefore(d.year)
    requires 0 <= t < YearLength(d.year)
    requires (t + 1 + Offset(d.year)) % 7 == 0 && IsoWeekNum(d.yday, d.wday) == (t + 1 + Offset(d.year)) / 7
    ensures InYear(t + DaysBefore(d.year), d.IsoWeekYear())
    ensures d.IsoWeekOfYear() == Thursdays(d.IsoWeekYear(), t + DaysBefore(d.year) - DaysBefore(d.IsoWeekYear()) + 1)
  {
    hide DaysBefore, Thursdays, IsoYearWeeks, IsoWeekNum, ThursdayOf, Offset, YearLength;
    YearsAreAdjacent(d.year);
    WithinYear(d.year, t);
  }

  lemma InYearAfter(d: Date, t: int)
    requires d.Consistent() && d.year >= 1 && t == ThursdayOf(d.Day()) - DaysBefore(d.year)
    requires YearLength(d.year) <= t < YearLength(d.year) + 3
    requires (t + 1 + Offset(d.year)) % 7 == 0 && IsoWeekNum(d.yday, d.wday) == (t + 1 + Offset(d.year)) / 7
    ensures InYear(t + DaysBefore(d.year), d.IsoWeekYear())
    ensures d.IsoWeekOfYear() == Thursdays(d.IsoWeekYear(), t + DaysBefore(d.year) - DaysBefore(d.IsoWeekYear()) + 1)
  {
    YearsAreAdjacent(d.year);
    YearsAreAdjacent(d.year + 1);
    YearAtLeast365(d.year + 1);
    hide DaysBefore, Thursdays, IsoYearWeeks, IsoWeekNum, ThursdayOf, Offset;
    BeyondYear(d.year, t);
  }

  /** A Thursday within a year is not counted beyond its weeks. */
  lemma WithinYear(year: int, t: int)
    requires year >= 1 && 0 <= t < YearLength(year) && (t + 1 + Offset(year)) % 7 == 0
    ensures var w := (t + 1 + Offset(year)) / 7;
      1 <= w <= IsoYearWeeks(year) && w == Thursdays(year, t + 1)
  {
    hide *;
    YearWeeksAreThursdays(year);
    CountThursdays(year, YearLength(year));
    CountThursdays(year, t + 1);
  }

  /** A Thursday after the end of a year is counted beyond its weeks, and is the first one of the next. */
  lemma BeyondYear(year: int, t: int)
    requires year >= 1 && YearLength(year) <= t < YearLength(year) + 3
    requires (t + 1 + Offset(year)) % 7 == 0
    ensures (t + 1 + Offset(year)) / 7 > IsoYearWeeks(year) >= 52
    ensures Thursdays(year + 1, t - YearLength(year) + 1) == 1
  {
    hide *;
    YearWeeksAreThursdays(year);
    YearAtLeast365(year);
    AtLeast52(year);
    CountThursdays(year, YearLength(year));
    FirstCount(year, t);
  }

  lemma FirstCount(year: int, t: int)
    requires YearLength(year) <= t < YearLength(year) + 3 && (t + 1 + Offset(year)) % 7 == 0
    ensures Thursdays(year + 1, t - YearLength(year) + 1) == 1
  {
    hide *;
    YearAtLeast365(year);
    CountThursdays(year + 1, t - YearLength(year) + 1);
    OffsetAfter(year);
    FirstThursday(Offset(year), YearLength(year), t);
  }

  lemma FirstThursday(o: int, length: int, t: int)
    requires length <= t < length + 3 && (t + 1 + o) % 7 == 0
    ensures (t - length + 1 + (o + length) % 7) / 7 == 1
  {
    assert (t - length + 1 + (o + length)) % 7 == 0;
    assert (t - length + 1 + (o + length) % 7) % 7 == 0;
  }

  /** A Thursday up to three days before a year is the last one of the year before. */
  lemma LastThursday(year: int, t: int)
    requires year >= 1 && -3 <= t < 0 && (t + 1 + Offset(year)) % 7 == 0
    ensures var n := YearLength(year - 1) + t + 1;
      0 <= n && IsoYearWeeks(year - 1) == Thursdays(year - 1, n)
  {
    hide *;
    YearAtLeast365(year - 1);
    LastCount(year - 1, t);
    FirstYear();
    YearWeeksAreThursdays(year - 1);
  }

  lemma LastCount(year: int, t: int)
    requires -3 <= t < 0 && (t + 1 + Offset(year + 1)) % 7 == 0
    ensures 0 <= YearLength(year) + t + 1
    ensures Thursdays(year, YearLength(year) + t + 1) == Thursdays(year, YearLength(year))
  {
    hide *;
    var length := YearLength(year);
    YearAtLeast365(year);
    CountThursdays(year, length);
    CountThursdays(year, length + t + 1);
    OffsetAfter(year);
    SameCount(Offset(year), length, t);
  }

  lemma FirstYear()
    ensures Offset(1) == 3
  {}

  lemma AtLeast52(year: int)
    ensures IsoYearWeeks(year) >= 52
  {}

  lemma YearAtLeast365(year: int)
    ensures 365 <= YearLength(year) <= 366
  {}

  lemma OffsetAfter(year: int)
    ensures Offset(year + 1) == (Offset(year) + YearLength(year)) % 7
  {
    YearsAreAdjacent(year);
    hide DaysBefore, YearLength;
    var a, n := DaysBefore(year), YearLength(year);
    assert ((a + n) % 7 + 3) % 7 == (a + n + 3) % 7;
    assert ((a % 7 + 3) % 7 + n) % 7 == (a + 3 + n) % 7;
  }

  lemma SameCount(o: int, length: int, t: int)
    requires -3 <= t < 0 && (t + 1 + (o + length) % 7) % 7 == 0
    ensures (length + t + 1 + o) / 7 == (length + o) / 7
  {
    assert (o + length + t + 1) % 7 == 0;
  }

  /** Over all dates, the week year and number are right exactly when the date is not miscounted. */
  lemma WeekOfThursday(d: Date)
    requires d.Consistent()
    ensures NamesThursday(d) <==> !Miscounted(d)
  {
    var y, t := d.year, ThursdayOf(d.Day()) - DaysBefore(d.year);
    hide *;
    WeekNumber(d);
    if y >= 1 {
      FromYearOne(d, t);
    } else if t < 0 {
      EarlyBefore(d, t);
    } else if t < YearLength(y) {
      EarlyWithin(d, t);
    } else {
      EarlyAfter(d, t);
    }
  }

  /** The last day of year -2 is in the 53rd week of that year; it is put into the first of year -1. */
  lemma DateInYearMinusTwo(d: Date)
    requires d == Date(-2, 364, Weekday(DaysBefore(-2) + 364))
    ensures d.Consistent() && Miscounted(d)
    ensures d.IsoWeekYear() == -1 && d.IsoWeekOfYear() == 1 && InYear(ThursdayOf(d.Day()), -2)
  {
    DaysOfYearMinusTwo();
    hide DaysBefore, YearLength, IsoYearWeeks;
    YearWeeksBeforeYearOne(-2);
  }
}
