/** Calendar arithmetic on plain (year, month, day) triples.

    The component works with JavaScript Date objects, but only ever through
    their calendar fields: getFullYear, getMonth (0..11), getDate (1..31),
    getDay (0 = Sunday), the constructor `new Date(y, m, d)` and the setters
    setDate and setMonth, all of which normalise an out-of-range month or day
    into the neighbouring months.  This module models those operations on the
    proleptic Gregorian calendar, with no time of day and no time zone.
 */
module CivilDate {

  /** A calendar day as a Date object exposes it: the full year, the month
      0..11 and the day of the month. */
  datatype Date = Date(year: int, month: int, day: int)

  /** An optional value: a bound or a selection that may be absent. */
  datatype Option<T> = None | Some(value: T)

  predicate IsLeapYear(y: int) {
    y % 4 == 0 && (y % 100 != 0 || y % 400 == 0)
  }

  function YearLength(y: int): int {
    if IsLeapYear(y) then 366 else 365
  }

  /** Reference table of month lengths; m is a month index 0..11. */
  function MonthLength(y: int, m: int): int
    requires 0 <= m < 12
  {
    if m == 1 then (if IsLeapYear(y) then 29 else 28)
    else if m == 3 || m == 5 || m == 8 || m == 10 then 30
    else 31
  }

  predicate ValidDate(d: Date) {
    0 <= d.month < 12 && 1 <= d.day <= MonthLength(d.year, d.month)
  }

  /** Number of days from 0001-01-01 to the first of January of year y
      (negative for the years before year 1), year by year. */
  function DaysBeforeYear(y: int): int
    decreases if y < 1 then 1 - y else y - 1
  {
    if y == 1 then 0
    else if y > 1 then DaysBeforeYear(y - 1) + YearLength(y - 1)
    else DaysBeforeYear(y + 1) - YearLength(y)
  }

  /** Number of days in year y before the first of month m. */
  function DaysBeforeMonth(y: int, m: int): int
    requires 0 <= m <= 12
    decreases m
  {
    if m == 0 then 0 else DaysBeforeMonth(y, m - 1) + MonthLength(y, m - 1)
  }

  /** Days elapsed since 0001-01-01 (day 0); negative before it. */
  function DayNumber(d: Date): int
    requires ValidDate(d)
  {
    DaysBeforeYear(d.year) + DaysBeforeMonth(d.year, d.month) + d.day - 1
  }

  /** Date.prototype.getDay: 0 = Sunday .. 6 = Saturday.
      Day 0 of DayNumber, 0001-01-01, was a Monday. */
  function Weekday(d: Date): (w: int)
    requires ValidDate(d)
    ensures 0 <= w < 7
  {
    (DayNumber(d) + 1) % 7
  }

  /** Month index counted from January of year 0: year * 12 + month. */
  function MonthIndex(d: Date): int {
    d.year * 12 + d.month
  }

  // ---------------------------------------------------------------------
  // Year and month arithmetic behind DayNumber

  lemma DivisionSteps(y: int)
    ensures y / 4 - (y - 1) / 4 == if y % 4 == 0 then 1 else 0
    ensures y / 100 - (y - 1) / 100 == if y % 100 == 0 then 1 else 0
    ensures y / 400 - (y - 1) / 400 == if y % 400 == 0 then 1 else 0
    ensures y % 400 == 0 ==> y % 100 == 0
    ensures y % 100 == 0 ==> y % 4 == 0
  {
  }

  lemma YearStep(y: int)
    ensures DaysBeforeYear(y + 1) == DaysBeforeYear(y) + YearLength(y)
  {
  }

  /** The usual closed form: 365 days a year plus the leap days of the
      years before. */
  lemma {:induction false} DaysBeforeYearClosedForm(y: int)
    ensures var p := y - 1; DaysBeforeYear(y) == 365 * p + p / 4 - p / 100 + p / 400
    decreases if y < 1 then 1 - y else y - 1
  {
    if y > 1 {
      DaysBeforeYearClosedForm(y - 1);
      DivisionSteps(y - 1);
    } else if y < 1 {
      DaysBeforeYearClosedForm(y + 1);
      DivisionSteps(y);
    }
  }

  lemma MonthsOfYear(y: int)
    ensures DaysBeforeMonth(y, 12) == YearLength(y)
  {
    var f := MonthLength(y, 1);
    assert DaysBeforeMonth(y, 2) == 31 + f;
    assert DaysBeforeMonth(y, 4) == 31 + f + 31 + 30;
    assert DaysBeforeMonth(y, 6) == 31 + f + 31 + 30 + 31 + 30;
    assert DaysBeforeMonth(y, 8) == 31 + f + 31 + 30 + 31 + 30 + 31 + 31;
    assert DaysBeforeMonth(y, 10) == 31 + f + 31 + 30 + 31 + 30 + 31 + 31 + 30 + 31;
    assert DaysBeforeMonth(y, 12) == 31 + f + 31 + 30 + 31 + 30 + 31 + 31 + 30 + 31 + 30 + 31;
  }

  /** Months are laid out one after the other within a year. */
  lemma {:induction false} MonthsBefore(y: int, m1: int, m2: int)
    requires 0 <= m1 < m2 <= 12
    ensures DaysBeforeMonth(y, m1) + MonthLength(y, m1) <= DaysBeforeMonth(y, m2)
    decreases m2
  {
    if m2 > m1 + 1 {
      MonthsBefore(y, m1, m2 - 1);
    }
  }

  /** Years are laid out one after the other. */
  lemma {:induction false} YearsBefore(y1: int, y2: int)
    requires y1 < y2
    ensures DaysBeforeYear(y1) + YearLength(y1) <= DaysBeforeYear(y2)
    decreases y2 - y1
  {
    YearStep(y1);
    if y2 > y1 + 1 {
      YearsBefore(y1 + 1, y2);
      YearStep(y2 - 1);
    }
  }

  lemma DayNumberWithinYear(d: Date)
    requires ValidDate(d)
    ensures DaysBeforeYear(d.year) <= DayNumber(d) < DaysBeforeYear(d.year) + YearLength(d.year)
  {
    MonthsOfYear(d.year);
    if d.month < 11 {
      MonthsBefore(d.year, d.month, 12);
    }
  }

  /** Distinct calendar days have distinct day numbers. */
  lemma DayNumberInjective(a: Date, b: Date)
    requires ValidDate(a) && ValidDate(b)
    ensures DayNumber(a) == DayNumber(b) <==> a == b
  {
    if a != b && DayNumber(a) == DayNumber(b) {
      DayNumberWithinYear(a);
      DayNumberWithinYear(b);
      if a.year < b.year {
        YearsBefore(a.year, b.year);
      } else if b.year < a.year {
        YearsBefore(b.year, a.year);
      } else if a.month < b.month {
        MonthsBefore(a.year, a.month, b.month);
      } else if b.month < a.month {
        MonthsBefore(a.year, b.month, a.month);
      }
    }
  }

  /** A day of an earlier month comes before every day of a later month. */
  lemma MonthOrder(a: Date, b: Date)
    requires ValidDate(a) && ValidDate(b) && MonthIndex(a) < MonthIndex(b)
    ensures DayNumber(a) < DayNumber(b)
  {
    DayNumberWithinYear(a);
    DayNumberWithinYear(b);
    if a.year < b.year {
      YearsBefore(a.year, b.year);
    } else {
      MonthsBefore(a.year, a.month, b.month);
    }
  }

  /** A day number determines the year it falls in. */
  lemma YearOfDayNumber(d: Date, y: int)
    requires ValidDate(d)
    requires DaysBeforeYear(y) <= DayNumber(d) < DaysBeforeYear(y) + YearLength(y)
    ensures d.year == y
  {
    DayNumberWithinYear(d);
    if d.year < y {
      YearsBefore(d.year, y);
    } else if y < d.year {
      YearsBefore(y, d.year);
    }
  }

  // ---------------------------------------------------------------------
  // Stepping by days

  function NextDay(d: Date): (r: Date)
    requires ValidDate(d)
    ensures ValidDate(r) && DayNumber(r) == DayNumber(d) + 1
  {
    if d.day < MonthLength(d.year, d.month) then
      Date(d.year, d.month, d.day + 1)
    else if d.month < 11 then
      Date(d.year, d.month + 1, 1)
    else
      YearStep(d.year);
      MonthsOfYear(d.year);
      Date(d.year + 1, 0, 1)
  }

  function PrevDay(d: Date): (r: Date)
    requires ValidDate(d)
    ensures ValidDate(r) && DayNumber(r) == DayNumber(d) - 1
  {
    if d.day > 1 then
      Date(d.year, d.month, d.day - 1)
    else if d.month > 0 then
      Date(d.year, d.month - 1, MonthLength(d.year, d.month - 1))
    else
      YearStep(d.year - 1);
      MonthsOfYear(d.year - 1);
      Date(d.year - 1, 11, 31)
  }

  /** The calendar day n days after d (before it when n < 0). */
  function AddDays(d: Date, n: int): (r: Date)
    requires ValidDate(d)
    ensures ValidDate(r) && DayNumber(r) == DayNumber(d) + n
    decreases if n < 0 then -n else n, 1
  {
    if n == 0 then d
    else if n > 0 then WalkForward(d, n)
    else WalkBackward(d, -n)
  }

  /** k > 0 days forward from d, one day at a time. */
  function WalkForward(d: Date, k: int): (r: Date)
    requires ValidDate(d) && k > 0
    ensures ValidDate(r) && DayNumber(r) == DayNumber(d) + k
    decreases k, 0
  {
    AddDays(NextDay(d), k - 1)
  }

  /** k > 0 days back from d, one day at a time. */
  function WalkBackward(d: Date, k: int): (r: Date)
    requires ValidDate(d) && k > 0
    ensures ValidDate(r) && DayNumber(r) == DayNumber(d) - k
    decreases k, 0
  {
    AddDays(PrevDay(d), -(k - 1))
  }

  /** AddDays is pinned down by day numbers: the only valid date n days
      after d is AddDays(d, n). */
  lemma AddDaysUnique(d: Date, n: int, e: Date)
    requires ValidDate(d) && ValidDate(e)
    ensures AddDays(d, n) == e <==> DayNumber(e) == DayNumber(d) + n
  {
    DayNumberInjective(AddDays(d, n), e);
  }

  lemma AddDaysAdd(d: Date, a: int, b: int, c: int)
    requires ValidDate(d) && a + b == c
    ensures AddDays(AddDays(d, a), b) == AddDays(d, c)
  {
    AddDaysUnique(AddDays(d, a), b, AddDays(d, c));
  }

  lemma ModSeven(a: int, k: int, n: int)
    requires a == k + n
    ensures a % 7 == (k % 7 + n) % 7
  {
  }

  lemma WeekdayAddDays(d: Date, n: int)
    requires ValidDate(d)
    ensures Weekday(AddDays(d, n)) == (Weekday(d) + n) % 7
  {
    hide DayNumber;
    ModSeven(DayNumber(AddDays(d, n)) + 1, DayNumber(d) + 1, n);
  }

  /** Walking forward inside a month keeps year and month. */
  lemma AddDaysInMonth(d: Date, n: int)
    requires ValidDate(d) && 1 <= d.day + n <= MonthLength(d.year, d.month)
    ensures AddDays(d, n) == Date(d.year, d.month, d.day + n)
  {
    AddDaysUnique(d, n, Date(d.year, d.month, d.day + n));
  }

  /** The first day of the month after the month of d. */
  function FollowingMonth(d: Date): (r: Date)
    requires 0 <= d.month < 12
    ensures ValidDate(r) && r.day == 1 && MonthIndex(r) == MonthIndex(d) + 1
  {
    if d.month < 11 then Date(d.year, d.month + 1, 1) else Date(d.year + 1, 0, 1)
  }

  /** The first of the next month follows the last day of this one. */
  lemma FollowingMonthNumber(s: Date)
    requires ValidDate(s) && s.day == 1
    ensures DayNumber(FollowingMonth(s)) == DayNumber(s) + MonthLength(s.year, s.month)
  {
    var last := Date(s.year, s.month, MonthLength(s.year, s.month));
    assert NextDay(last) == FollowingMonth(s);
  }

  /** A day offset past the end of the month of s, but short of the end of
      the following month, lands in the following month. */
  lemma OffsetInNextMonth(s: Date, j: int)
    requires ValidDate(s) && s.day == 1
    requires MonthLength(s.year, s.month) <= j
    requires j < MonthLength(s.year, s.month) + MonthLength(FollowingMonth(s).year, FollowingMonth(s).month)
    ensures AddDays(s, j) == Date(FollowingMonth(s).year, FollowingMonth(s).month, j - MonthLength(s.year, s.month) + 1)
  {
    var len, t := MonthLength(s.year, s.month), FollowingMonth(s);
    FollowingMonthNumber(s);
    AddDaysUnique(s, j, Date(t.year, t.month, j - len + 1));
  }

  // ---------------------------------------------------------------------
  // The JavaScript Date operations

  /** MakeDay of ECMAScript: month m of year y, where a month outside 0..11
      moves the year by whole years of twelve months, then day d counted
      from the first of that month (d may lie outside the month and moves
      into the neighbouring months). */
  function Normalize(y: int, m: int, d: int): (r: Date)
    ensures ValidDate(r)
    ensures DayNumber(r) == DayNumber(MonthFirst(y, m)) + d - 1
  {
    AddDays(MonthFirst(y, m), d - 1)
  }

  /** The first day of month m of year y, for any month number m: twelve
      months make a year. */
  function MonthFirst(y: int, m: int): (r: Date)
    ensures ValidDate(r) && r.day == 1 && MonthIndex(r) == y * 12 + m
    decreases if m < 0 then 12 - m else m
  {
    if m < 0 then MonthFirst(y - 1, m + 12)
    else if m >= 12 then MonthFirst(y + 1, m - 12)
    else Date(y, m, 1)
  }

  /** Two firsts of months with the same month index are the same day. */
  lemma MonthFirstUnique(a: Date, b: Date)
    requires 0 <= a.month < 12 && 0 <= b.month < 12 && a.day == b.day
    requires MonthIndex(a) == MonthIndex(b)
    ensures a == b
  {
  }

  /** Within a year, normalising counts days from the first of the month:
      day k is n = k - 1 days after it. */
  lemma NormalizeInYear(y: int, m: int, k: int, n: int)
    requires 0 <= m < 12 && n == k - 1
    ensures Normalize(y, m, k) == AddDays(Date(y, m, 1), n)
  {
    assert MonthFirst(y, m) == Date(y, m, 1);
  }

  /** A month and a day that exist are kept as they are. */
  lemma NormalizeValid(y: int, m: int, d: int)
    requires 0 <= m < 12 && 1 <= d <= MonthLength(y, m)
    ensures Normalize(y, m, d) == Date(y, m, d)
  {
    NormalizeInYear(y, m, d, d - 1);
    AddDaysInMonth(Date(y, m, 1), d - 1);
  }

  /** Month m + 1 of a date's year is the following month. */
  lemma NormalizeNextMonth(d: Date, k: int)
    requires 0 <= d.month < 12
    ensures Normalize(d.year, d.month + 1, k) == AddDays(FollowingMonth(d), k - 1)
  {
    MonthFirstUnique(MonthFirst(d.year, d.month + 1), FollowingMonth(d));
  }

  /** Month m - 1 of a date's year is the preceding month. */
  lemma NormalizePreviousMonth(d: Date, k: int)
    requires 0 <= d.month < 12
    ensures Normalize(d.year, d.month - 1, k) == AddDays(PrecedingMonth(d), k - 1)
  {
    MonthFirstUnique(MonthFirst(d.year, d.month - 1), PrecedingMonth(d));
  }

  /** Normalising a day offset k = d.day + n from a valid date d is adding
      n days to it. */
  lemma NormalizeShift(d: Date, n: int, k: int)
    requires ValidDate(d) && k == d.day + n
    ensures Normalize(d.year, d.month, k) == AddDays(d, n)
  {
    var f := Date(d.year, d.month, 1);
    NormalizeInYear(d.year, d.month, k, k - 1);
    assert DayNumber(d) == DayNumber(f) + d.day - 1;
    AddDaysUnique(f, k - 1, AddDays(d, n));
  }

  /** The year the Date constructor uses: a year argument 0..99 means
      1900..1999. */
  function ConstructorYear(y: int): (r: int)
    ensures 0 <= y <= 99 ==> r == 1900 + y
    ensures r == y <==> !(0 <= y <= 99)
    ensures r < 0 || 100 <= r
  {
    if 0 <= y <= 99 then 1900 + y else y
  }

  /** `new Date(y, m, d)`. */
  function NewDate(y: int, m: int, d: int): (r: Date)
    ensures ValidDate(r)
    ensures 0 <= m < 12 && 1 <= d <= MonthLength(ConstructorYear(y), m) ==> r == Date(ConstructorYear(y), m, d)
  {
    if 0 <= m < 12 && 1 <= d <= MonthLength(ConstructorYear(y), m) then
      NormalizeValid(ConstructorYear(y), m, d);
      Normalize(ConstructorYear(y), m, d)
    else
      Normalize(ConstructorYear(y), m, d)
  }

  /** `date.setMonth(m)`: the year and the day of the month are kept. */
  function SetMonth(d: Date, m: int): (r: Date)
    ensures ValidDate(r)
    ensures 0 <= m < 12 && 1 <= d.day <= MonthLength(d.year, m) ==> r == Date(d.year, m, d.day)
  {
    if 0 <= m < 12 && 1 <= d.day <= MonthLength(d.year, m) then
      NormalizeValid(d.year, m, d.day);
      Normalize(d.year, m, d.day)
    else
      Normalize(d.year, m, d.day)
  }

  /** The first day of the month before the month of d. */
  function PrecedingMonth(d: Date): (r: Date)
    requires 0 <= d.month < 12
    ensures ValidDate(r) && r.day == 1 && MonthIndex(r) == MonthIndex(d) - 1
  {
    if d.month > 0 then Date(d.year, d.month - 1, 1) else Date(d.year - 1, 11, 1)
  }

  /** Moving a date to the next month keeps its day when that month is long
      enough; otherwise the day spills over into the month after. */
  lemma SetMonthForward(d: Date)
    requires ValidDate(d)
    ensures var r, t := SetMonth(d, d.month + 1), FollowingMonth(d);
      && (d.day <= MonthLength(t.year, t.month) ==> r == Date(t.year, t.month, d.day))
      && (d.day > MonthLength(t.year, t.month) ==>
            r == Date(FollowingMonth(t).year, FollowingMonth(t).month, d.day - MonthLength(t.year, t.month)))
  {
    hide IsLeapYear;
    var t := FollowingMonth(d);
    var len := MonthLength(t.year, t.month);
    NormalizeNextMonth(d, d.day);
    if d.day <= len {
      AddDaysInMonth(t, d.day - 1);
    } else {
      var u := FollowingMonth(t);
      assert d.day - 1 < len + MonthLength(u.year, u.month);
      OffsetInNextMonth(t, d.day - 1);
      assert AddDays(t, d.day - 1) == Date(u.year, u.month, d.day - len);
    }
  }

  /** Moving a date to the previous month keeps its day when that month is
      long enough; otherwise the day spills back into the month of d. */
  lemma SetMonthBackward(d: Date)
    requires ValidDate(d)
    ensures var r, p := SetMonth(d, d.month - 1), PrecedingMonth(d);
      && (d.day <= MonthLength(p.year, p.month) ==> r == Date(p.year, p.month, d.day))
      && (d.day > MonthLength(p.year, p.month) ==>
            r == Date(d.year, d.month, d.day - MonthLength(p.year, p.month)))
  {
    hide IsLeapYear;
    hide DayNumber;
    hide Normalize;
    var p := PrecedingMonth(d);
    NormalizePreviousMonth(d, d.day);
    assert FollowingMonth(p) == Date(d.year, d.month, 1);
    if d.day <= MonthLength(p.year, p.month) {
      AddDaysInMonth(p, d.day - 1);
    } else {
      OffsetInNextMonth(p, d.day - 1);
    }
  }

  /** The component's addDays: `new Date(y, m, d)` rebuilt from the fields
      of the given date, then `setDate(getDate() + n)`. */
  function AddDaysJs(d: Date, n: int): (r: Date)
    requires ValidDate(d)
    ensures ValidDate(r)
    ensures !(0 <= d.year <= 99) ==> r == AddDays(d, n)
  {
    var copy := NewDate(d.year, d.month, d.day);
    if !(0 <= d.year <= 99) then
      NormalizeValid(d.year, d.month, d.day);
      NormalizeShift(d, n, d.day + n);
      Normalize(copy.year, copy.month, copy.day + n)
    else
      Normalize(copy.year, copy.month, copy.day + n)
  }
}
