/** The month grid: the run of consecutive days shown for the displayed
    month, padded to whole weeks (getDay, getDaysInMonth, getItems).

    getDay takes its comparison threshold from its own parameter, which
    defaults to 1 and is never passed, and subtracts the component's
    weekStartsOn.  Both appear here: `threshold` is the parameter and
    `weekStartsOn` the prop.  The grid functions take the threshold as an
    argument; the component always supplies 1.

    The days the component builds with `new Date(...)` are written here as
    the calendar days they denote; the lemmas DayZero, MonthEndsByConstructor
    and GridStartByConstructor prove that the constructor calls of the
    component produce exactly those days.
 */
module MonthGrid {
  import opened CivilDate

  /** getDay: the column of a day in a week that starts on weekStartsOn.
      The column is the weekday minus the week start, plus 7 when the
      weekday lies below the threshold. */
  function GetDay(d: Date, threshold: int, weekStartsOn: int): (r: int)
    requires ValidDate(d)
    ensures r + weekStartsOn == Weekday(d) || r + weekStartsOn == Weekday(d) + 7
    ensures r + weekStartsOn == Weekday(d) + 7 <==> Weekday(d) < threshold
  {
    var day := Weekday(d);
    (if day < threshold then 7 else 0) + day - weekStartsOn
  }

  /** When the threshold is the week start, the column is the position of
      the day in its week, 0..6. */
  lemma GetDayColumnRange(d: Date, weekStartsOn: int)
    requires ValidDate(d) && 0 <= weekStartsOn <= 6
    ensures 0 <= GetDay(d, weekStartsOn, weekStartsOn) <= 6
    ensures GetDay(d, weekStartsOn, weekStartsOn) == (Weekday(d) - weekStartsOn + 7) % 7
  {
  }

  /** With the threshold left at its default 1, a week start other than
      Monday yields the column 7 (a Sunday, when weeks start on Sunday) and
      the negative columns -1..-5 (a weekday before the week start other
      than Sunday). */
  lemma DefaultThresholdOffsets(d: Date, weekStartsOn: int)
    requires ValidDate(d) && 0 <= weekStartsOn <= 6
    ensures var r, w := GetDay(d, 1, weekStartsOn), Weekday(d);
      && -5 <= r <= 7
      && (r == 7 <==> w == 0 && weekStartsOn == 0)
      && (r < 0 <==> 1 <= w < weekStartsOn)
      && (weekStartsOn == 1 ==> 0 <= r <= 6)
  {
  }

  /** getDaysInMonth: the number of days of the displayed month, in the
      year the Date constructor gives the displayed year. */
  function DaysInMonth(d: Date): (n: int)
    requires ValidDate(d)
    ensures 28 <= n <= 31
    ensures d.month == 1 ==> (n == 29 <==> IsLeapYear(ConstructorYear(d.year)))
    ensures d.month != 1 ==> (n == 30 <==> d.month in {3, 5, 8, 10})
  {
    MonthLength(ConstructorYear(d.year), d.month)
  }

  /** The displayed month as a month index: the month the Date constructor
      makes of a date's year and month. */
  function ShownMonth(d: Date): int {
    ConstructorYear(d.year) * 12 + d.month
  }

  /** The first of the displayed month, `new Date(year, month)`. */
  function FirstOfMonth(d: Date): (r: Date)
    requires ValidDate(d)
    ensures ValidDate(r) && r.day == 1
    ensures MonthIndex(r) == ShownMonth(d)
  {
    Date(ConstructorYear(d.year), d.month, 1)
  }

  /** `new Date(year, month, daysInMonth)`: the last day of the displayed
      month. */
  function LastOfMonth(d: Date): (r: Date)
    requires ValidDate(d)
    ensures ValidDate(r) && MonthIndex(r) == MonthIndex(FirstOfMonth(d))
    ensures DayNumber(r) == DayNumber(FirstOfMonth(d)) + DaysInMonth(d) - 1
  {
    AddDaysInMonth(FirstOfMonth(d), DaysInMonth(d) - 1);
    Date(ConstructorYear(d.year), d.month, DaysInMonth(d))
  }

  /** getDaysInMonth asks for day 0 of the following month, which is the
      last day of the displayed month; so its day is the month's length. */
  lemma DayZero(d: Date)
    requires ValidDate(d)
    ensures NewDate(d.year, d.month + 1, 0) == LastOfMonth(d)
    ensures NewDate(d.year, d.month + 1, 0).day == DaysInMonth(d)
  {
    var next := FollowingMonth(FirstOfMonth(d));
    NormalizeNextMonth(FirstOfMonth(d), 0);
    assert AddDays(next, -1) == PrevDay(next);
  }

  /** The constructor calls for the first and the last of the month denote
      FirstOfMonth and LastOfMonth. */
  lemma MonthEndsByConstructor(d: Date)
    requires ValidDate(d)
    ensures NewDate(d.year, d.month, 1) == FirstOfMonth(d)
    ensures NewDate(d.year, d.month, DaysInMonth(d)) == LastOfMonth(d)
  {
    NormalizeValid(ConstructorYear(d.year), d.month, 1);
    NormalizeValid(ConstructorYear(d.year), d.month, DaysInMonth(d));
  }

  /** firstDayOfMonth: the column of the first of the month. */
  function FirstOffset(d: Date, threshold: int, weekStartsOn: int): (r: int)
    requires ValidDate(d)
    ensures (r + weekStartsOn - Weekday(FirstOfMonth(d))) % 7 == 0
    ensures threshold == weekStartsOn && 0 <= weekStartsOn <= 6 ==> 0 <= r <= 6
  {
    GetDay(FirstOfMonth(d), threshold, weekStartsOn)
  }

  /** startOfWeek: the day firstDayOfMonth days before the first. */
  function GridStart(d: Date, threshold: int, weekStartsOn: int): (r: Date)
    requires ValidDate(d)
    ensures ValidDate(r)
    ensures DayNumber(r) == DayNumber(FirstOfMonth(d)) - FirstOffset(d, threshold, weekStartsOn)
  {
    AddDays(FirstOfMonth(d), -FirstOffset(d, threshold, weekStartsOn))
  }

  /** startOfWeek is built as `new Date(year, month, 1 - firstDayOfMonth)`,
      which normalises to GridStart. */
  lemma GridStartByConstructor(d: Date, threshold: int, weekStartsOn: int)
    requires ValidDate(d)
    ensures NewDate(d.year, d.month, 1 - FirstOffset(d, threshold, weekStartsOn)) == GridStart(d, threshold, weekStartsOn)
  {
    var first := FirstOffset(d, threshold, weekStartsOn);
    NormalizeInYear(ConstructorYear(d.year), d.month, 1 - first, -first);
  }

  /** The values getItems builds with the Date constructor are the ones
      defined above: firstDayOfMonth, daysInMonth, startOfWeek and
      amountOfDays. */
  lemma ItemsByConstructor(d: Date, threshold: int, weekStartsOn: int, forceSixRows: bool)
    requires ValidDate(d)
    ensures var first := GetDay(NewDate(d.year, d.month, 1), threshold, weekStartsOn);
      var n := NewDate(d.year, d.month + 1, 0).day;
      && first == FirstOffset(d, threshold, weekStartsOn)
      && n == DaysInMonth(d)
      && NewDate(d.year, d.month, 1 - first) == GridStart(d, threshold, weekStartsOn)
      && (if !forceSixRows then n + first + (6 - GetDay(NewDate(d.year, d.month, n), threshold, weekStartsOn)) else 42)
         == CellCount(d, threshold, weekStartsOn, forceSixRows)
  {
    MonthEndsByConstructor(d);
    DayZero(d);
    GridStartByConstructor(d, threshold, weekStartsOn);
  }

  /** amountOfDays: 42 with forceSixRows, otherwise the days of the month
      plus the lead days before the first and the trail days after the
      last; negative only for a week start outside 0..6. */
  function CellCount(d: Date, threshold: int, weekStartsOn: int, forceSixRows: bool): (n: int)
    requires ValidDate(d)
    ensures forceSixRows ==> n == 42
    ensures 0 <= weekStartsOn <= 6 ==> 15 <= n
  {
    var daysInMonth := DaysInMonth(d);
    var first := FirstOffset(d, threshold, weekStartsOn);
    var last := GetDay(LastOfMonth(d), threshold, weekStartsOn);
    if !forceSixRows then daysInMonth + first + (6 - last) else 42
  }

  /** getItems: `addDays(startOfWeek, i)` for every i from 0 while i is
      below amountOfDays (no cell when that is not positive). */
  function Items(d: Date, threshold: int, weekStartsOn: int, forceSixRows: bool): (cells: seq<Date>)
    requires ValidDate(d)
    ensures |cells| == if CellCount(d, threshold, weekStartsOn, forceSixRows) < 0 then 0
                       else CellCount(d, threshold, weekStartsOn, forceSixRows)
    ensures forall i :: 0 <= i < |cells| ==> ValidDate(cells[i])
  {
    var start := GridStart(d, threshold, weekStartsOn);
    var n := CellCount(d, threshold, weekStartsOn, forceSixRows);
    seq(if n < 0 then 0 else n, i requires 0 <= i => AddDaysJs(start, i))
  }

  // ---------------------------------------------------------------------
  // The shape of the grid

  /** The lead days, the month and the trail days make whole weeks. */
  lemma WholeWeeks(d: Date, threshold: int, weekStartsOn: int, forceSixRows: bool)
    requires ValidDate(d)
    ensures CellCount(d, threshold, weekStartsOn, forceSixRows) % 7 == 0
  {
    MonthColumns(d, threshold, weekStartsOn);
    if !forceSixRows {
      CountMultipleOfSeven(CellCount(d, threshold, weekStartsOn, forceSixRows),
        FirstOffset(d, threshold, weekStartsOn), GetDay(LastOfMonth(d), threshold, weekStartsOn),
        DayNumber(FirstOfMonth(d)), weekStartsOn, DaysInMonth(d));
    }
  }

  /** getDay's column, in terms of the day number. */
  lemma GetDayColumn(d: Date, threshold: int, weekStartsOn: int)
    requires ValidDate(d)
    ensures var r := GetDay(d, threshold, weekStartsOn);
      r + weekStartsOn == (DayNumber(d) + 1) % 7 || r + weekStartsOn == (DayNumber(d) + 1) % 7 + 7
  {
  }

  /** The columns of the first and of the last of the month, in terms of
      the day number of the first. */
  lemma MonthColumns(d: Date, threshold: int, weekStartsOn: int)
    requires ValidDate(d)
    ensures var first, last, df, n :=
        FirstOffset(d, threshold, weekStartsOn), GetDay(LastOfMonth(d), threshold, weekStartsOn),
        DayNumber(FirstOfMonth(d)), DaysInMonth(d);
      && (first + weekStartsOn == (df + 1) % 7 || first + weekStartsOn == (df + 1) % 7 + 7)
      && (last + weekStartsOn == (df + n) % 7 || last + weekStartsOn == (df + n) % 7 + 7)
  {
    var l := LastOfMonth(d);
    GetDayColumn(FirstOfMonth(d), threshold, weekStartsOn);
    GetDayColumn(l, threshold, weekStartsOn);
    assert DayNumber(l) + 1 == DayNumber(FirstOfMonth(d)) + DaysInMonth(d);
  }

  /** The count of whole weeks, as arithmetic on the columns of the first
      and the last of the month and the day number of the first. */
  lemma CountMultipleOfSeven(count: int, first: int, last: int, df: int, weekStartsOn: int, n: int)
    requires count == n + first + 6 - last
    requires first + weekStartsOn == (df + 1) % 7 || first + weekStartsOn == (df + 1) % 7 + 7
    requires last + weekStartsOn == (df + n) % 7 || last + weekStartsOn == (df + n) % 7 + 7
    ensures count % 7 == 0
  {
  }

  /** A day no later than the first of January of year y, and at most 31
      days before it, lies in year y - 1 or y. */
  lemma YearOfLeadDay(e: Date, f: Date)
    requires ValidDate(e) && ValidDate(f)
    requires DayNumber(f) - 31 <= DayNumber(e) <= DayNumber(f)
    ensures f.year - 1 <= e.year <= f.year
  {
    DayNumberWithinYear(e);
    DayNumberWithinYear(f);
    if e.year > f.year {
      YearsBefore(f.year, e.year);
    } else if e.year < f.year - 1 {
      YearsBefore(e.year, f.year - 1);
      YearStep(f.year - 1);
    }
  }

  /** The grid starts in a year outside 0..99 unless the displayed year is
      100, so `addDays` rebuilds every cell without the constructor's
      two-digit-year rule. */
  lemma GridStartYear(d: Date, threshold: int, weekStartsOn: int)
    requires ValidDate(d) && 0 <= weekStartsOn <= 6
    requires d.year != 100
    ensures !(0 <= GridStart(d, threshold, weekStartsOn).year <= 99)
  {
    var f, first := FirstOfMonth(d), FirstOffset(d, threshold, weekStartsOn);
    var s := GridStart(d, threshold, weekStartsOn);
    if first <= 0 {
      AddDaysUnique(f, -first, Date(f.year, f.month, 1 - first));
    } else {
      YearOfLeadDay(s, f);
    }
  }

  /** Cell i is the day i days after startOfWeek. */
  lemma ItemIsShift(d: Date, threshold: int, weekStartsOn: int, forceSixRows: bool, i: int)
    requires ValidDate(d) && 0 <= weekStartsOn <= 6
    requires d.year != 100
    requires 0 <= i < |Items(d, threshold, weekStartsOn, forceSixRows)|
    ensures Items(d, threshold, weekStartsOn, forceSixRows)[i] == AddDays(GridStart(d, threshold, weekStartsOn), i)
  {
    GridStartYear(d, threshold, weekStartsOn);
  }

  /** Cell i is i - firstOffset days after the first of the month. */
  lemma GridCell(d: Date, threshold: int, weekStartsOn: int, forceSixRows: bool, i: int)
    requires ValidDate(d) && 0 <= weekStartsOn <= 6
    requires d.year != 100
    requires 0 <= i < |Items(d, threshold, weekStartsOn, forceSixRows)|
    ensures var cell := Items(d, threshold, weekStartsOn, forceSixRows)[i];
      DayNumber(cell) == DayNumber(FirstOfMonth(d)) + i - FirstOffset(d, threshold, weekStartsOn)
  {
    ItemIsShift(d, threshold, weekStartsOn, forceSixRows, i);
  }

  /** The cells are consecutive days, each distinct from the others. */
  lemma GridConsecutive(d: Date, threshold: int, weekStartsOn: int, forceSixRows: bool)
    requires ValidDate(d) && 0 <= weekStartsOn <= 6
    requires d.year != 100
    ensures var cells := Items(d, threshold, weekStartsOn, forceSixRows);
      && (forall i :: 0 <= i < |cells| - 1 ==> cells[i + 1] == NextDay(cells[i]))
      && (forall i, k :: 0 <= i < k < |cells| ==> DayNumber(cells[i]) < DayNumber(cells[k]))
  {
    var cells := Items(d, threshold, weekStartsOn, forceSixRows);
    var f, first := FirstOfMonth(d), FirstOffset(d, threshold, weekStartsOn);
    forall i | 0 <= i < |cells|
      ensures DayNumber(cells[i]) == DayNumber(f) + i - first
    {
      GridCell(d, threshold, weekStartsOn, forceSixRows, i);
    }
    forall i | 0 <= i < |cells| - 1
      ensures cells[i + 1] == NextDay(cells[i])
    {
      DayNumberInjective(cells[i + 1], NextDay(cells[i]));
    }
  }

  /** Day j of the month sits at index firstOffset + j - 1, whenever that
      index lies inside the grid. */
  lemma GridDayOfMonth(d: Date, threshold: int, weekStartsOn: int, forceSixRows: bool, j: int)
    requires ValidDate(d) && 0 <= weekStartsOn <= 6
    requires d.year != 100
    requires 1 <= j <= DaysInMonth(d)
    requires 0 <= FirstOffset(d, threshold, weekStartsOn) + j - 1 < |Items(d, threshold, weekStartsOn, forceSixRows)|
    ensures Items(d, threshold, weekStartsOn, forceSixRows)[FirstOffset(d, threshold, weekStartsOn) + j - 1] ==
              Date(ConstructorYear(d.year), d.month, j)
  {
    hide IsLeapYear;
    hide DayNumber;
    var k := FirstOffset(d, threshold, weekStartsOn) + j - 1;
    var day := Date(ConstructorYear(d.year), d.month, j);
    AddDaysInMonth(FirstOfMonth(d), j - 1);
    GridCell(d, threshold, weekStartsOn, forceSixRows, k);
    DayNumberInjective(Items(d, threshold, weekStartsOn, forceSixRows)[k], day);
  }

  /** Day j of the month appears at no other index. */
  lemma GridDayOnce(d: Date, threshold: int, weekStartsOn: int, forceSixRows: bool, j: int)
    requires ValidDate(d) && 0 <= weekStartsOn <= 6
    requires d.year != 100
    requires 1 <= j <= DaysInMonth(d)
    ensures var cells := Items(d, threshold, weekStartsOn, forceSixRows);
      forall i :: 0 <= i < |cells| && cells[i] == Date(ConstructorYear(d.year), d.month, j) ==>
        i == FirstOffset(d, threshold, weekStartsOn) + j - 1
  {
    var cells := Items(d, threshold, weekStartsOn, forceSixRows);
    AddDaysInMonth(FirstOfMonth(d), j - 1);
    forall i | 0 <= i < |cells| && cells[i] == Date(ConstructorYear(d.year), d.month, j)
      ensures i == FirstOffset(d, threshold, weekStartsOn) + j - 1
    {
      GridCell(d, threshold, weekStartsOn, forceSixRows, i);
    }
  }

  /** The cells before firstOffset lie in earlier months. */
  lemma LeadCellMonth(d: Date, threshold: int, weekStartsOn: int, forceSixRows: bool, i: int)
    requires ValidDate(d) && 0 <= weekStartsOn <= 6 && d.year != 100
    requires 0 <= i < |Items(d, threshold, weekStartsOn, forceSixRows)|
    requires i < FirstOffset(d, threshold, weekStartsOn)
    ensures MonthIndex(Items(d, threshold, weekStartsOn, forceSixRows)[i]) < MonthIndex(FirstOfMonth(d))
  {
    var f, c := FirstOfMonth(d), Items(d, threshold, weekStartsOn, forceSixRows)[i];
    GridCell(d, threshold, weekStartsOn, forceSixRows, i);
    hide DayNumber;
    hide IsLeapYear;
    hide Items;
    if MonthIndex(f) < MonthIndex(c) {
      MonthOrder(f, c);
    } else if MonthIndex(f) == MonthIndex(c) {
      MonthFirstUnique(f, Date(c.year, c.month, 1));
      AddDaysInMonth(f, c.day - 1);
    }
  }

  /** The cells from firstOffset + daysInMonth on lie in later months. */
  lemma TrailCellMonth(d: Date, threshold: int, weekStartsOn: int, forceSixRows: bool, i: int)
    requires ValidDate(d) && 0 <= weekStartsOn <= 6 && d.year != 100
    requires 0 <= i < |Items(d, threshold, weekStartsOn, forceSixRows)|
    requires FirstOffset(d, threshold, weekStartsOn) + DaysInMonth(d) <= i
    ensures MonthIndex(Items(d, threshold, weekStartsOn, forceSixRows)[i]) > MonthIndex(FirstOfMonth(d))
  {
    var f, c := FirstOfMonth(d), Items(d, threshold, weekStartsOn, forceSixRows)[i];
    GridCell(d, threshold, weekStartsOn, forceSixRows, i);
    hide DayNumber;
    hide IsLeapYear;
    hide Items;
    var t := FollowingMonth(f);
    FollowingMonthNumber(f);
    if MonthIndex(c) < MonthIndex(t) {
      MonthOrder(c, t);
    }
  }

  /** Whatever the threshold, the cell at index i lies in week column
      i mod 7: its weekday is weekStartsOn + i, modulo 7. */
  lemma GridColumns(d: Date, threshold: int, weekStartsOn: int, forceSixRows: bool, i: int)
    requires ValidDate(d) && 0 <= weekStartsOn <= 6 && d.year != 100
    requires 0 <= i < |Items(d, threshold, weekStartsOn, forceSixRows)|
    ensures Weekday(Items(d, threshold, weekStartsOn, forceSixRows)[i]) == (weekStartsOn + i) % 7
  {
    hide DayNumber;
    hide IsLeapYear;
    hide Items;
    hide Weekday;
    var f, first := FirstOfMonth(d), FirstOffset(d, threshold, weekStartsOn);
    ItemIsShift(d, threshold, weekStartsOn, forceSixRows, i);
    assert GridStart(d, threshold, weekStartsOn) == AddDays(f, -first);
    AddDaysAdd(f, -first, i, i - first);
    WeekdayAddDays(f, i - first);
    SameResidue(Weekday(f) + (i - first), weekStartsOn + i);
  }

  lemma SameResidue(a: int, b: int)
    requires (b - a) % 7 == 0
    ensures a % 7 == b % 7
  {
  }

  /** With the threshold at the week start the grid has four to six rows. */
  lemma GridSize(d: Date, weekStartsOn: int, forceSixRows: bool)
    requires ValidDate(d) && 0 <= weekStartsOn <= 6
    ensures 0 <= FirstOffset(d, weekStartsOn, weekStartsOn) <= 6
    ensures 28 <= |Items(d, weekStartsOn, weekStartsOn, forceSixRows)| <= 42
  {
    GetDayColumnRange(FirstOfMonth(d), weekStartsOn);
    GetDayColumnRange(LastOfMonth(d), weekStartsOn);
    WholeWeeks(d, weekStartsOn, weekStartsOn, forceSixRows);
    WeeksBetween(CellCount(d, weekStartsOn, weekStartsOn, forceSixRows), 28, 43);
  }

  lemma WeeksBetween(n: int, lo: int, hi: int)
    requires lo <= n <= hi && n % 7 == 0 && lo % 7 == 0 && hi % 7 == 1
    ensures n <= hi - 1
  {
  }

  /** For every threshold, the grid starts on the first of the month minus
      its column and, unless six rows are forced, ends 6 - column days after
      the last day of the month, where column is getDay of that last day;
      its last cell closes a week.  Only when the threshold is the week
      start does that column lie in 0..6, so that the last cell ends the
      week holding the month's last day. */
  lemma GridEnds(d: Date, threshold: int, weekStartsOn: int, forceSixRows: bool)
    requires ValidDate(d) && 0 <= weekStartsOn <= 6
    requires d.year != 100
    ensures var cells := Items(d, threshold, weekStartsOn, forceSixRows);
      && 1 <= |cells|
      && DayNumber(cells[0]) == DayNumber(FirstOfMonth(d)) - FirstOffset(d, threshold, weekStartsOn)
      && Weekday(cells[|cells| - 1]) == (weekStartsOn + 6) % 7
      && (!forceSixRows ==>
            DayNumber(cells[|cells| - 1]) ==
            DayNumber(LastOfMonth(d)) + 6 - GetDay(LastOfMonth(d), threshold, weekStartsOn))
      && (!forceSixRows && threshold == weekStartsOn ==>
            DayNumber(LastOfMonth(d)) <= DayNumber(cells[|cells| - 1]) <= DayNumber(LastOfMonth(d)) + 6)
  {
    var cells := Items(d, threshold, weekStartsOn, forceSixRows);
    GridLastCell(d, threshold, weekStartsOn, forceSixRows);
    GridCell(d, threshold, weekStartsOn, forceSixRows, 0);
    if threshold == weekStartsOn {
      GetDayColumnRange(LastOfMonth(d), weekStartsOn);
    }
  }

  /** The grid is not empty, and its last cell is the day before a week
      start, |cells| - 1 - firstOffset days after the first of the month. */
  lemma GridLastCell(d: Date, threshold: int, weekStartsOn: int, forceSixRows: bool)
    requires ValidDate(d) && 0 <= weekStartsOn <= 6
    requires d.year != 100
    ensures var cells := Items(d, threshold, weekStartsOn, forceSixRows);
      && 1 <= |cells| && |cells| == CellCount(d, threshold, weekStartsOn, forceSixRows)
      && DayNumber(cells[|cells| - 1]) == DayNumber(FirstOfMonth(d)) + |cells| - 1 - FirstOffset(d, threshold, weekStartsOn)
      && Weekday(cells[|cells| - 1]) == (weekStartsOn + 6) % 7
  {
    var n := CellCount(d, threshold, weekStartsOn, forceSixRows);
    GridCell(d, threshold, weekStartsOn, forceSixRows, n - 1);
    LastColumn(d, threshold, weekStartsOn, forceSixRows);
  }

  /** The last cell lies in the week's last column. */
  lemma LastColumn(d: Date, threshold: int, weekStartsOn: int, forceSixRows: bool)
    requires ValidDate(d) && 0 <= weekStartsOn <= 6
    requires d.year != 100
    ensures var cells := Items(d, threshold, weekStartsOn, forceSixRows);
      1 <= |cells| && Weekday(cells[|cells| - 1]) == (weekStartsOn + 6) % 7
  {
    hide DayNumber;
    hide IsLeapYear;
    hide Weekday;
    hide Items;
    hide CellCount;
    var n := CellCount(d, threshold, weekStartsOn, forceSixRows);
    WholeWeeks(d, threshold, weekStartsOn, forceSixRows);
    GridColumns(d, threshold, weekStartsOn, forceSixRows, n - 1);
    WeekEndResidue(weekStartsOn, n);
  }

  lemma WeekEndResidue(w: int, n: int)
    requires n % 7 == 0
    ensures (w + n - 1) % 7 == (w + 6) % 7
  {
    var k := n / 7;
    assert w + n - 1 == (w + 6) + 7 * (k - 1);
  }

  /** When getDay's threshold equals weekStartsOn (as it does for the
      default Monday start), every day of the displayed month is in the
      grid, day j at index firstOffset + j - 1. */
  lemma GridCoversMonth(d: Date, weekStartsOn: int, forceSixRows: bool)
    requires ValidDate(d) && 0 <= weekStartsOn <= 6
    requires d.year != 100
    ensures var cells, first := Items(d, weekStartsOn, weekStartsOn, forceSixRows), FirstOffset(d, weekStartsOn, weekStartsOn);
      forall j :: 1 <= j <= DaysInMonth(d) ==>
        0 <= first + j - 1 < |cells| && cells[first + j - 1] == Date(ConstructorYear(d.year), d.month, j)
  {
    hide IsLeapYear;
    hide DayNumber;
    hide Items;
    var cells := Items(d, weekStartsOn, weekStartsOn, forceSixRows);
    var first := FirstOffset(d, weekStartsOn, weekStartsOn);
    GridSize(d, weekStartsOn, forceSixRows);
    MonthFitsGrid(d, weekStartsOn, forceSixRows);
    forall j | 1 <= j <= DaysInMonth(d)
      ensures 0 <= first + j - 1 < |cells| && cells[first + j - 1] == Date(ConstructorYear(d.year), d.month, j)
    {
      GridDayOfMonth(d, weekStartsOn, weekStartsOn, forceSixRows, j);
    }
  }

  /** When getDay's threshold equals weekStartsOn, the last day of the
      month lies inside the grid. */
  lemma MonthFitsGrid(d: Date, weekStartsOn: int, forceSixRows: bool)
    requires ValidDate(d) && 0 <= weekStartsOn <= 6
    ensures FirstOffset(d, weekStartsOn, weekStartsOn) + DaysInMonth(d) <= |Items(d, weekStartsOn, weekStartsOn, forceSixRows)|
  {
    GridSize(d, weekStartsOn, forceSixRows);
    GetDayColumnRange(LastOfMonth(d), weekStartsOn);
    if forceSixRows {
      GetDayColumnRange(FirstOfMonth(d), weekStartsOn);
    }
  }

  // ---------------------------------------------------------------------
  // The default threshold with a week start other than Monday

  /** With getDay's threshold left at 1 and weeks starting after Monday, a
      month whose first falls on a weekday before the week start (other than
      Sunday) gets a negative first column; the grid then starts after the
      first of the month, and days 1 to -firstOffset are not shown at all. */
  lemma DefaultThresholdDropsFirst(d: Date, weekStartsOn: int, forceSixRows: bool)
    requires ValidDate(d) && 0 <= weekStartsOn <= 6 && d.year != 100
    requires 1 <= Weekday(FirstOfMonth(d)) < weekStartsOn
    ensures FirstOffset(d, 1, weekStartsOn) < 0
    ensures forall j :: 1 <= j <= -FirstOffset(d, 1, weekStartsOn) ==>
      Date(ConstructorYear(d.year), d.month, j) !in Items(d, 1, weekStartsOn, forceSixRows)
  {
    var cells := Items(d, 1, weekStartsOn, forceSixRows);
    var f, first := FirstOfMonth(d), FirstOffset(d, 1, weekStartsOn);
    DefaultThresholdOffsets(f, weekStartsOn);
    forall j, i | 1 <= j <= -first && 0 <= i < |cells|
      ensures cells[i] != Date(ConstructorYear(d.year), d.month, j)
    {
      GridCell(d, 1, weekStartsOn, forceSixRows, i);
      AddDaysInMonth(f, j - 1);
    }
  }

  /** With the threshold at 1 and weeks starting on Sunday, a Sunday gets
      column 7: a month that ends on a Sunday is one cell short, and its
      last day is not shown. */
  lemma DefaultThresholdDropsLast(d: Date)
    requires ValidDate(d) && d.year != 100
    requires Weekday(LastOfMonth(d)) == 0
    ensures GetDay(LastOfMonth(d), 1, 0) == 7
    ensures LastOfMonth(d) !in Items(d, 1, 0, false)
  {
    var cells := Items(d, 1, 0, false);
    DefaultThresholdOffsets(FirstOfMonth(d), 0);
    forall i | 0 <= i < |cells|
      ensures cells[i] != LastOfMonth(d)
    {
      GridCell(d, 1, 0, false, i);
    }
  }

  /** With the threshold at 1 and weeks starting on Sunday, a month that
      begins on a Sunday gets first column 7: the grid opens with a whole
      week of the month before. */
  lemma DefaultThresholdExtraWeek(d: Date, forceSixRows: bool)
    requires ValidDate(d) && d.year != 100
    requires Weekday(FirstOfMonth(d)) == 0
    ensures FirstOffset(d, 1, 0) == 7
    ensures var cells := Items(d, 1, 0, forceSixRows);
      7 <= |cells| && forall i :: 0 <= i < 7 ==> MonthIndex(cells[i]) < ShownMonth(d)
  {
    var cells := Items(d, 1, 0, forceSixRows);
    forall i | 0 <= i < 7
      ensures MonthIndex(cells[i]) < ShownMonth(d)
    {
      LeadCellMonth(d, 1, 0, forceSixRows, i);
    }
  }

  /** With the threshold at 1 and weeks starting on Tuesday or later, a
      month whose last day falls on a weekday from Monday up to the day
      before the week start gives that day a negative column; `6 - column`
      then adds more than a week of trail days, and the last seven cells of
      the unforced grid all lie in later months. */
  lemma DefaultThresholdExtraTrailWeek(d: Date, weekStartsOn: int)
    requires ValidDate(d) && d.year != 100 && 2 <= weekStartsOn <= 6
    requires 1 <= Weekday(LastOfMonth(d)) < weekStartsOn
    ensures GetDay(LastOfMonth(d), 1, weekStartsOn) < 0
    ensures var cells := Items(d, 1, weekStartsOn, false);
      && FirstOffset(d, 1, weekStartsOn) + DaysInMonth(d) + 7 <= |cells|
      && forall i :: |cells| - 7 <= i < |cells| ==> MonthIndex(cells[i]) > ShownMonth(d)
  {
    var cells := Items(d, 1, weekStartsOn, false);
    DefaultThresholdOffsets(FirstOfMonth(d), weekStartsOn);
    DefaultThresholdOffsets(LastOfMonth(d), weekStartsOn);
    forall i | |cells| - 7 <= i < |cells|
      ensures MonthIndex(cells[i]) > ShownMonth(d)
    {
      TrailCellMonth(d, 1, weekStartsOn, false, i);
    }
  }

  /** October 2024 begins on a Tuesday; with weeks starting on Wednesday
      the component's grid leaves out 2024-10-01. */
  lemma October2024MissesFirst(d: Date)
    requires d == Date(2024, 9, 1)
    ensures ValidDate(d) && Weekday(d) == 2
    ensures FirstOffset(d, 1, 3) == -1
    ensures Date(2024, 9, 1) !in Items(d, 1, 3, false)
  {
    OctoberFirst2024();
    assert FirstOfMonth(d) == d;
    DefaultThresholdDropsFirst(d, 3, false);
  }

  lemma OctoberFirst2024()
    ensures DayNumber(Date(2024, 9, 1)) == 739159
    ensures Weekday(Date(2024, 9, 1)) == 2
  {
    hide DaysBeforeYear;
    DaysBeforeYearClosedForm(2024);
  }

  /** April 2024 begins on a Monday; with weeks starting on Saturday the
      component's grid leaves out April 1 to 5. */
  lemma April2024MissesFirstFive(d: Date)
    requires d == Date(2024, 3, 1)
    ensures ValidDate(d) && Weekday(d) == 1
    ensures FirstOffset(d, 1, 6) == -5
    ensures forall j :: 1 <= j <= 5 ==> Date(2024, 3, j) !in Items(d, 1, 6, false)
  {
    AprilFirst2024();
    assert FirstOfMonth(d) == d;
    DefaultThresholdDropsFirst(d, 6, false);
  }

  lemma AprilFirst2024()
    ensures DayNumber(Date(2024, 3, 1)) == 738976
    ensures Weekday(Date(2024, 3, 1)) == 1
  {
    hide DaysBeforeYear;
    DaysBeforeYearClosedForm(2024);
  }

  /** March 2024 ends on a Sunday; with weeks starting on Sunday the
      component's grid has 35 cells and leaves out 2024-03-31. */
  lemma March2024MissesLast(d: Date)
    requires d == Date(2024, 2, 1)
    ensures ValidDate(d) && Weekday(d) == 5
    ensures LastOfMonth(d) == Date(2024, 2, 31) && Weekday(LastOfMonth(d)) == 0
    ensures |Items(d, 1, 0, false)| == 35
    ensures Date(2024, 2, 31) !in Items(d, 1, 0, false)
  {
    March2024Columns(d);
    DefaultThresholdDropsLast(d);
  }

  lemma March2024Columns(d: Date)
    requires d == Date(2024, 2, 1)
    ensures ValidDate(d) && FirstOfMonth(d) == d && DaysInMonth(d) == 31
    ensures Weekday(d) == 5 && FirstOffset(d, 1, 0) == 5
    ensures LastOfMonth(d) == Date(2024, 2, 31) && Weekday(LastOfMonth(d)) == 0
  {
    MarchFirst2024();
    AddDaysInMonth(d, 30);
    WeekdayAddDays(d, 30);
  }

  lemma MarchFirst2024()
    ensures DayNumber(Date(2024, 2, 1)) == 738945
    ensures Weekday(Date(2024, 2, 1)) == 5
  {
    hide DaysBeforeYear;
    DaysBeforeYearClosedForm(2024);
  }

  /** September 2024 begins on a Sunday and ends on a Monday; with weeks
      starting on Wednesday the component's grid has 42 cells and runs to
      2024-10-08, eight days into October, where the intended grid has 35
      cells and stops at 2024-10-01. */
  lemma September2024ExtraTrailWeek(d: Date)
    requires d == Date(2024, 8, 1)
    ensures ValidDate(d) && Weekday(d) == 0
    ensures LastOfMonth(d) == Date(2024, 8, 30) && Weekday(LastOfMonth(d)) == 1
    ensures |Items(d, 1, 3, false)| == 42 && Items(d, 1, 3, false)[41] == Date(2024, 9, 8)
    ensures |Items(d, 3, 3, false)| == 35 && Items(d, 3, 3, false)[34] == Date(2024, 9, 1)
  {
    September2024Columns(d);
    September2024Ends();
    var cells, fixedCells := Items(d, 1, 3, false), Items(d, 3, 3, false);
    GridCell(d, 1, 3, false, 41);
    DayNumberInjective(cells[41], Date(2024, 9, 8));
    GridCell(d, 3, 3, false, 34);
    DayNumberInjective(fixedCells[34], Date(2024, 9, 1));
  }

  lemma September2024Columns(d: Date)
    requires d == Date(2024, 8, 1)
    ensures ValidDate(d) && FirstOfMonth(d) == d && DaysInMonth(d) == 30
    ensures Weekday(d) == 0 && FirstOffset(d, 1, 3) == 4 && FirstOffset(d, 3, 3) == 4
    ensures LastOfMonth(d) == Date(2024, 8, 30) && Weekday(LastOfMonth(d)) == 1
  {
    SeptemberFirst2024();
    AddDaysInMonth(d, 29);
    WeekdayAddDays(d, 29);
  }

  lemma SeptemberFirst2024()
    ensures DayNumber(Date(2024, 8, 1)) == 739129
    ensures Weekday(Date(2024, 8, 1)) == 0
  {
    hide DaysBeforeYear;
    DaysBeforeYearClosedForm(2024);
  }

  /** Day numbers of the ends of the two September 2024 grids. */
  lemma September2024Ends()
    ensures DayNumber(Date(2024, 9, 1)) == 739159
    ensures DayNumber(Date(2024, 9, 8)) == 739166
  {
    hide DaysBeforeYear;
    DaysBeforeYearClosedForm(2024);
  }

  // ---------------------------------------------------------------------
  // Worked example: February 2024 with weeks starting on Monday

  lemma FebruaryFirst2024()
    ensures DayNumber(Date(2024, 1, 1)) == 738916
    ensures Weekday(Date(2024, 1, 1)) == 4
  {
    hide DaysBeforeYear;
    DaysBeforeYearClosedForm(2024);
  }

  /** Day numbers of the ends of the February 2024 grid. */
  lemma February2024Ends()
    ensures DayNumber(Date(2024, 0, 29)) == 738913
    ensures DayNumber(Date(2024, 2, 3)) == 738947
    ensures DayNumber(Date(2024, 2, 10)) == 738954
  {
    hide DaysBeforeYear;
    DaysBeforeYearClosedForm(2024);
  }

  /** February 2024 has 29 days and starts in column 3 (a Thursday, with
      weeks starting on Monday); its last day, a Thursday too, also sits in
      column 3.  (The displayed date is a parameter equal to 2024-02-01, so
      that the solver reasons about it rather than evaluating it.) */
  lemma February2024Columns(d: Date)
    requires d == Date(2024, 1, 1)
    ensures && ValidDate(d) && FirstOfMonth(d) == d && DaysInMonth(d) == 29
      && FirstOffset(d, 1, 1) == 3
      && LastOfMonth(d) == Date(2024, 1, 29) && GetDay(LastOfMonth(d), 1, 1) == 3
  {
    FebruaryFirst2024();
    AddDaysInMonth(d, 28);
    WeekdayAddDays(d, 28);
  }

  /** The February 2024 grid has 35 cells, or 42 with six rows forced. */
  lemma February2024Count(d: Date, forceSixRows: bool)
    requires d == Date(2024, 1, 1)
    ensures ValidDate(d) && |Items(d, 1, 1, forceSixRows)| == if forceSixRows then 42 else 35
  {
    February2024Columns(d);
  }

  /** The February 2024 grid starts on Monday 2024-01-29. */
  lemma February2024Start(d: Date, forceSixRows: bool)
    requires d == Date(2024, 1, 1)
    ensures ValidDate(d)
    ensures var cells := Items(d, 1, 1, forceSixRows);
      1 <= |cells| && cells[0] == Date(2024, 0, 29)
  {
    var cells := Items(d, 1, 1, forceSixRows);
    February2024Count(d, forceSixRows);
    February2024Columns(d);
    FebruaryFirst2024();
    February2024Ends();
    GridCell(d, 1, 1, forceSixRows, 0);
    DayNumberInjective(cells[0], Date(2024, 0, 29));
  }

  /** The February 2024 grid ends on Sunday 2024-03-03, or on Sunday
      2024-03-10 with six rows forced. */
  lemma February2024End(d: Date, forceSixRows: bool)
    requires d == Date(2024, 1, 1)
    ensures ValidDate(d)
    ensures var cells := Items(d, 1, 1, forceSixRows);
      1 <= |cells| && cells[|cells| - 1] == if forceSixRows then Date(2024, 2, 10) else Date(2024, 2, 3)
  {
    var cells := Items(d, 1, 1, forceSixRows);
    var last := if forceSixRows then Date(2024, 2, 10) else Date(2024, 2, 3);
    February2024Count(d, forceSixRows);
    February2024Columns(d);
    FebruaryFirst2024();
    February2024Ends();
    GridCell(d, 1, 1, forceSixRows, |cells| - 1);
    DayNumberInjective(cells[|cells| - 1], last);
  }
}
