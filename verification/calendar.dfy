/** The calendar component: its state (the displayed date and the selected
    day), the two month buttons with their bounds, the click on a day, the
    modifier flags of a grid cell and the grid itself (getItems).

    The component keeps `date` and `selectedDate` in its state and reads
    `events`, `minDate`, `maxDate`, `weekStartsOn` and `forceSixRows` from
    its props; here the props are constant fields of the Calendar class and
    the state its two variable fields.  The functions before the class say
    what each handler does to the state; the class methods are proved to do
    exactly that.
 */
module CalendarComponent {
  import opened CivilDate
  import opened DateKey
  import opened MonthGrid

  // ---------------------------------------------------------------------
  // Month bounds (isMinDate, isMaxDate)

  predicate ValidBound(bound: Option<Date>) {
    bound.Some? ==> ValidDate(bound.value)
  }

  /** isMinDate / isMaxDate: a bound is set, and `new Date(year, month)` of
      the displayed date is the same instant as that of the bound; that is,
      the bound lies in the displayed month, both years read the way the
      constructor reads them. */
  function AtBound(bound: Option<Date>, shown: Date): (r: bool)
    requires ValidDate(shown) && ValidBound(bound)
    ensures r <==> bound.Some? && ShownMonth(shown) == ShownMonth(bound.value)
  {
    match bound
    case None => false
    case Some(b) =>
      MonthStartsEqual(shown, b);
      NewDate(shown.year, shown.month, 1) == NewDate(b.year, b.month, 1)
  }

  /** Day 1 of two months, as the constructor builds them, is the same day
      exactly when the months are the same. */
  lemma MonthStartsEqual(a: Date, b: Date)
    requires ValidDate(a) && ValidDate(b)
    ensures NewDate(a.year, a.month, 1) == NewDate(b.year, b.month, 1) <==> ShownMonth(a) == ShownMonth(b)
  {
    MonthEndsByConstructor(a);
    MonthEndsByConstructor(b);
    if ShownMonth(a) == ShownMonth(b) {
      MonthFirstUnique(FirstOfMonth(a), FirstOfMonth(b));
    }
  }

  /** A displayed date in the month of a bound is at that bound: that month
      lies in a year the constructor keeps as it is. */
  lemma InBoundMonthIsAtBound(bound: Date, shown: Date)
    requires ValidDate(shown) && ValidDate(bound)
    requires MonthIndex(shown) == ShownMonth(bound)
    ensures AtBound(Some(bound), shown)
  {
    assert ConstructorYear(shown.year) == shown.year;
  }

  // ---------------------------------------------------------------------
  // The month buttons (previousMonth, nextMonth)

  /** previousMonth without a bound, `setMonth(getMonth() - 1)`: the
      displayed date moves one month back, to the same day, when the
      preceding month has that day; otherwise the day spills over and the
      displayed month does not change. */
  function PreviousMonthDate(d: Date): (r: Date)
    requires ValidDate(d)
    ensures ValidDate(r)
    ensures var p := PrecedingMonth(d);
      && (d.day <= MonthLength(p.year, p.month) ==> MonthIndex(r) == MonthIndex(d) - 1 && r.day == d.day)
      && (d.day > MonthLength(p.year, p.month) ==>
            MonthIndex(r) == MonthIndex(d) && r.day == d.day - MonthLength(p.year, p.month))
  {
    SetMonthBackward(d);
    SetMonth(d, d.month - 1)
  }

  /** nextMonth without a bound, `setMonth(getMonth() + 1)`: the displayed
      date moves one month on, to the same day, when the following month
      has that day; otherwise the day spills over into the month after it. */
  function NextMonthDate(d: Date): (r: Date)
    requires ValidDate(d)
    ensures ValidDate(r)
    ensures var t := FollowingMonth(d);
      && (d.day <= MonthLength(t.year, t.month) ==> MonthIndex(r) == MonthIndex(d) + 1 && r.day == d.day)
      && (d.day > MonthLength(t.year, t.month) ==>
            MonthIndex(r) == MonthIndex(d) + 2 && r.day == d.day - MonthLength(t.year, t.month))
  {
    SetMonthForward(d);
    SetMonth(d, d.month + 1)
  }

  /** previousMonth: the displayed date stays exactly when the lower bound
      is reached. */
  function PreviousMonthClick(d: Date, minDate: Option<Date>): (r: Date)
    requires ValidDate(d) && ValidBound(minDate)
    ensures ValidDate(r)
    ensures r == d <==> AtBound(minDate, d)
  {
    if AtBound(minDate, d) then d else PreviousMonthDate(d)
  }

  /** nextMonth: the displayed date stays exactly when the upper bound is
      reached. */
  function NextMonthClick(d: Date, maxDate: Option<Date>): (r: Date)
    requires ValidDate(d) && ValidBound(maxDate)
    ensures ValidDate(r)
    ensures r == d <==> AtBound(maxDate, d)
  {
    if AtBound(maxDate, d) then d else NextMonthDate(d)
  }

  /** The displayed month lies between the months of the bounds. */
  predicate InBounds(d: Date, minDate: Option<Date>, maxDate: Option<Date>) {
    && (minDate.Some? ==> ShownMonth(minDate.value) <= MonthIndex(d))
    && (maxDate.Some? ==> MonthIndex(d) <= ShownMonth(maxDate.value))
  }

  datatype Button = Previous | Next

  /** The displayed date after a run of clicks on the month buttons; with
      `clamped`, the buttons move as ClampedMonthStep does. */
  function Navigate(d: Date, minDate: Option<Date>, maxDate: Option<Date>, clicks: seq<Button>, clamped: bool): (r: Date)
    requires ValidDate(d) && ValidBound(minDate) && ValidBound(maxDate)
    ensures ValidDate(r)
    decreases |clicks|
  {
    if clicks == [] then d
    else
      var e :=
        if clicks[0] == Previous then
          if clamped then ClampedPreviousClick(d, minDate) else PreviousMonthClick(d, minDate)
        else
          if clamped then ClampedNextClick(d, maxDate) else NextMonthClick(d, maxDate);
      Navigate(e, minDate, maxDate, clicks[1..], clamped)
  }

  /** One click on previousMonth keeps a displayed day up to 28 and keeps
      the displayed month between the bounds. */
  lemma PreviousMonthKeepsBounds(d: Date, minDate: Option<Date>, maxDate: Option<Date>)
    requires ValidDate(d) && d.day <= 28 && ValidBound(minDate)
    requires InBounds(d, minDate, maxDate)
    ensures var r := PreviousMonthClick(d, minDate);
      r.day == d.day && InBounds(r, minDate, maxDate)
  {
    if !AtBound(minDate, d) {
      if minDate.Some? && MonthIndex(d) == ShownMonth(minDate.value) {
        InBoundMonthIsAtBound(minDate.value, d);
      }
    }
  }

  /** One click on nextMonth keeps a displayed day up to 28 and keeps the
      displayed month between the bounds. */
  lemma NextMonthKeepsBounds(d: Date, minDate: Option<Date>, maxDate: Option<Date>)
    requires ValidDate(d) && d.day <= 28 && ValidBound(maxDate)
    requires InBounds(d, minDate, maxDate)
    ensures var r := NextMonthClick(d, maxDate);
      r.day == d.day && InBounds(r, minDate, maxDate)
  {
    if !AtBound(maxDate, d) {
      if maxDate.Some? && MonthIndex(d) == ShownMonth(maxDate.value) {
        InBoundMonthIsAtBound(maxDate.value, d);
      }
    }
  }

  /** From a displayed day up to 28, no run of clicks on the month buttons
      leaves the months of the bounds, and the day never changes. */
  lemma {:induction false} NavigateKeepsBounds(d: Date, minDate: Option<Date>, maxDate: Option<Date>, clicks: seq<Button>)
    requires ValidDate(d) && d.day <= 28 && ValidBound(minDate) && ValidBound(maxDate)
    requires InBounds(d, minDate, maxDate)
    ensures var r := Navigate(d, minDate, maxDate, clicks, false);
      r.day == d.day && InBounds(r, minDate, maxDate)
    decreases |clicks|
  {
    if clicks != [] {
      var e := if clicks[0] == Previous then PreviousMonthClick(d, minDate) else NextMonthClick(d, maxDate);
      if clicks[0] == Previous {
        PreviousMonthKeepsBounds(d, minDate, maxDate);
      } else {
        NextMonthKeepsBounds(d, minDate, maxDate);
      }
      NavigateKeepsBounds(e, minDate, maxDate, clicks[1..]);
    }
  }

  /** From 2023-01-31 with the upper bound in February 2023, nextMonth
      lands on 2023-03-03, past the bound. */
  lemma NextMonthPassesMaxDate(d: Date, maxDate: Date)
    requires d == Date(2023, 0, 31) && maxDate == Date(2023, 1, 15)
    ensures InBounds(d, None, Some(maxDate)) && !AtBound(Some(maxDate), d)
    ensures NextMonthClick(d, Some(maxDate)) == Date(2023, 2, 3)
    ensures !InBounds(NextMonthClick(d, Some(maxDate)), None, Some(maxDate))
  {
    hide NewDate;
    hide DayNumber;
    SetMonthForward(d);
  }

  /** From 2023-03-31, previousMonth lands on 2023-03-03: the displayed
      month stays March. */
  lemma PreviousMonthStaysInMonth(d: Date)
    requires d == Date(2023, 2, 31)
    ensures PreviousMonthClick(d, None) == Date(2023, 2, 3)
  {
    SetMonthBackward(d);
  }

  /** The month step the buttons evidently intend: to the same day of the
      neighbouring month, or to its last day when it is shorter. */
  function ClampedMonthStep(d: Date, forward: bool): (r: Date)
    requires 0 <= d.month < 12 && 1 <= d.day
    ensures ValidDate(r)
    ensures MonthIndex(r) == MonthIndex(d) + (if forward then 1 else -1)
    ensures r.day <= d.day && (r.day == d.day || r.day == MonthLength(r.year, r.month))
  {
    var t := if forward then FollowingMonth(d) else PrecedingMonth(d);
    var len := MonthLength(t.year, t.month);
    Date(t.year, t.month, if d.day <= len then d.day else len)
  }

  function ClampedPreviousClick(d: Date, minDate: Option<Date>): (r: Date)
    requires ValidDate(d) && ValidBound(minDate)
    ensures ValidDate(r)
  {
    if AtBound(minDate, d) then d else ClampedMonthStep(d, false)
  }

  function ClampedNextClick(d: Date, maxDate: Option<Date>): (r: Date)
    requires ValidDate(d) && ValidBound(maxDate)
    ensures ValidDate(r)
  {
    if AtBound(maxDate, d) then d else ClampedMonthStep(d, true)
  }

  /** With the clamped step, no run of clicks leaves the months of the
      bounds, whatever the displayed day. */
  lemma {:induction false} ClampedNavigateKeepsBounds(d: Date, minDate: Option<Date>, maxDate: Option<Date>, clicks: seq<Button>)
    requires ValidDate(d) && ValidBound(minDate) && ValidBound(maxDate)
    requires InBounds(d, minDate, maxDate)
    ensures InBounds(Navigate(d, minDate, maxDate, clicks, true), minDate, maxDate)
    decreases |clicks|
  {
    if clicks != [] {
      var e := if clicks[0] == Previous then ClampedPreviousClick(d, minDate) else ClampedNextClick(d, maxDate);
      if minDate.Some? && MonthIndex(d) == ShownMonth(minDate.value) {
        InBoundMonthIsAtBound(minDate.value, d);
      }
      if maxDate.Some? && MonthIndex(d) == ShownMonth(maxDate.value) {
        InBoundMonthIsAtBound(maxDate.value, d);
      }
      assert InBounds(e, minDate, maxDate);
      ClampedNavigateKeepsBounds(e, minDate, maxDate, clicks[1..]);
    }
  }

  // ---------------------------------------------------------------------
  // Selecting a day (clickOnDay)

  /** clickOnDay: a click on the selected day clears the selection; a click
      on another day that has an event selects it; any other click leaves
      the selection as it is. */
  function ClickResult(selectedDate: Option<Date>, day: Date, events: seq<string>): (r: Option<Date>)
    ensures || r == selectedDate
            || (selectedDate == Some(day) && r == None)
            || (r == Some(day) && DateString(day) in events)
    ensures r == selectedDate <==> selectedDate != Some(day) && DateString(day) !in events
  {
    if selectedDate.Some? && selectedDate.value == day then None
    else if DateString(day) in events then Some(day)
    else selectedDate
  }

  /** A click selects the clicked day exactly when the day has an event and
      was not selected. */
  lemma ClickSelects(selectedDate: Option<Date>, day: Date, events: seq<string>)
    ensures ClickResult(selectedDate, day, events) == Some(day) <==>
              selectedDate != Some(day) && DateString(day) in events
  {
  }

  /** A click leaves no selection exactly when it hits the selected day, or
      nothing was selected and the day has no event. */
  lemma ClickClears(selectedDate: Option<Date>, day: Date, events: seq<string>)
    ensures ClickResult(selectedDate, day, events) == None <==>
              selectedDate == Some(day) || (selectedDate == None && DateString(day) !in events)
  {
  }

  /** Two clicks on the same day restore the selection exactly when the day
      has an event and it was selected or nothing was, or the day has no
      event and was not selected. */
  lemma ClickTwice(selectedDate: Option<Date>, day: Date, events: seq<string>)
    ensures var twice := ClickResult(ClickResult(selectedDate, day, events), day, events);
      twice == selectedDate <==>
        if DateString(day) in events then selectedDate == None || selectedDate == Some(day)
        else selectedDate != Some(day)
  {
  }

  /** Every day the component selects has an event: if the selection had
      one before a click, it has one after. */
  lemma ClickKeepsEventSelection(selectedDate: Option<Date>, day: Date, events: seq<string>)
    requires selectedDate.Some? ==> DateString(selectedDate.value) in events
    ensures var r := ClickResult(selectedDate, day, events);
      r.Some? ==> DateString(r.value) in events
  {
  }

  // ---------------------------------------------------------------------
  // Cell flags (getDayClasses)

  /** The modifier classes of a grid cell: previous-month, next-month,
      event and selected (the today class is not modelled). */
  datatype DayFlags = DayFlags(previousMonth: bool, nextMonth: bool, event: bool, selected: bool)

  /** getDayClasses for the cell of day `cell` while `shown` is displayed:
      the months are compared by their number 0..11 only. */
  function CellFlags(shown: Date, selectedDate: Option<Date>, events: seq<string>, cell: Date): (r: DayFlags)
    ensures !(r.previousMonth && r.nextMonth)
    ensures r.previousMonth || r.nextMonth <==> cell.month != shown.month
  {
    DayFlags(
      cell.month < shown.month,
      cell.month > shown.month,
      DateString(cell) in events,
      selectedDate == Some(cell))
  }

  /** The flags evidently intended: months compared with their years. */
  function IntendedCellFlags(shown: Date, selectedDate: Option<Date>, events: seq<string>, cell: Date): DayFlags {
    DayFlags(
      MonthIndex(cell) < ShownMonth(shown),
      MonthIndex(cell) > ShownMonth(shown),
      DateString(cell) in events,
      selectedDate == Some(cell))
  }

  /** The event flag marks exactly the day of the event: keys of distinct
      days differ. */
  lemma EventFlagMarksDay(shown: Date, selectedDate: Option<Date>, eventDay: Date, cell: Date)
    requires ValidDate(eventDay) && ValidDate(cell)
    ensures CellFlags(shown, selectedDate, [DateString(eventDay)], cell).event <==> cell == eventDay
  {
    DateKeyInjective(cell, eventDay);
  }

  /** Within the displayed year the flags are the intended ones. */
  lemma FlagsAgreeWithinYear(shown: Date, selectedDate: Option<Date>, events: seq<string>, cell: Date)
    requires cell.year == ConstructorYear(shown.year)
    ensures CellFlags(shown, selectedDate, events, cell) == IntendedCellFlags(shown, selectedDate, events, cell)
  {
  }

  /** With the threshold at the week start, the intended flags mark the
      lead cells as previous-month and the trail cells as next-month, and
      no other cell. */
  lemma GridFlagsIntended(d: Date, weekStartsOn: int, forceSixRows: bool, selectedDate: Option<Date>, events: seq<string>, i: int)
    requires ValidDate(d) && 0 <= weekStartsOn <= 6 && d.year != 100
    requires 0 <= i < |Items(d, weekStartsOn, weekStartsOn, forceSixRows)|
    ensures var cells, first := Items(d, weekStartsOn, weekStartsOn, forceSixRows), FirstOffset(d, weekStartsOn, weekStartsOn);
      var f := IntendedCellFlags(d, selectedDate, events, cells[i]);
      && (f.previousMonth <==> i < first)
      && (f.nextMonth <==> first + DaysInMonth(d) <= i)
  {
    hide DayNumber;
    hide IsLeapYear;
    var first, n := FirstOffset(d, weekStartsOn, weekStartsOn), DaysInMonth(d);
    var c := Items(d, weekStartsOn, weekStartsOn, forceSixRows)[i];
    if i < first {
      LeadCellMonth(d, weekStartsOn, weekStartsOn, forceSixRows, i);
    } else if first + n <= i {
      TrailCellMonth(d, weekStartsOn, weekStartsOn, forceSixRows, i);
    } else {
      GridSize(d, weekStartsOn, forceSixRows);
      GridDayOfMonth(d, weekStartsOn, weekStartsOn, forceSixRows, i - first + 1);
      assert MonthIndex(c) == ShownMonth(d);
    }
  }

  /** January 2025 (the first is a Wednesday) with weeks starting on
      Monday: the grid starts on 2024-12-30, which gets the next-month flag
      rather than the previous-month one. */
  lemma January2025LeadDayFlags(d: Date)
    requires d == Date(2025, 0, 1)
    ensures var cells := Items(d, 1, 1, false);
      && 1 <= |cells| && cells[0] == Date(2024, 11, 30)
      && CellFlags(d, None, [], cells[0]).nextMonth
      && !CellFlags(d, None, [], cells[0]).previousMonth
      && IntendedCellFlags(d, None, [], cells[0]).previousMonth
  {
    var lead := Date(2024, 11, 30);
    January2025Numbers(d, lead);
    GridSize(d, 1, false);
    GridCell(d, 1, 1, false, 0);
    DayNumberInjective(Items(d, 1, 1, false)[0], lead);
  }

  lemma January2025Numbers(d: Date, lead: Date)
    requires d == Date(2025, 0, 1) && lead == Date(2024, 11, 30)
    ensures ValidDate(d) && ValidDate(lead) && FirstOfMonth(d) == d
    ensures DayNumber(d) == 739251 && Weekday(d) == 3 && FirstOffset(d, 1, 1) == 2
    ensures DayNumber(lead) == 739249
  {
    hide DaysBeforeYear;
    DaysBeforeYearClosedForm(2025);
    DaysBeforeYearClosedForm(2024);
  }

  // ---------------------------------------------------------------------
  // The component

  class Calendar {
    const events: seq<string>
    const minDate: Option<Date>
    const maxDate: Option<Date>
    const weekStartsOn: int
    const forceSixRows: bool
    var date: Date
    var selectedDate: Option<Date>

    predicate Valid()
      reads this
    {
      && ValidDate(date) && (selectedDate.Some? ==> ValidDate(selectedDate.value))
      && ValidBound(minDate) && ValidBound(maxDate)
    }

    /** The state starts from the props date and selectedDate. */
    constructor (date: Date, selectedDate: Option<Date>, events: seq<string>,
                 minDate: Option<Date>, maxDate: Option<Date>, weekStartsOn: int, forceSixRows: bool)
      requires ValidDate(date) && (selectedDate.Some? ==> ValidDate(selectedDate.value))
      requires ValidBound(minDate) && ValidBound(maxDate)
      ensures Valid()
      ensures this.date == date && this.selectedDate == selectedDate
      ensures this.events == events && this.minDate == minDate && this.maxDate == maxDate
      ensures this.weekStartsOn == weekStartsOn && this.forceSixRows == forceSixRows
    {
      this.date := date;
      this.selectedDate := selectedDate;
      this.events := events;
      this.minDate := minDate;
      this.maxDate := maxDate;
      this.weekStartsOn := weekStartsOn;
      this.forceSixRows := forceSixRows;
    }

    /** isMinDate: the lower bound is set and lies in the displayed month. */
    function IsMinDate(): (r: bool)
      requires Valid()
      reads this
      ensures r <==> minDate.Some? && ShownMonth(date) == ShownMonth(minDate.value)
    {
      AtBound(minDate, date)
    }

    /** isMaxDate: the upper bound is set and lies in the displayed month. */
    function IsMaxDate(): (r: bool)
      requires Valid()
      reads this
      ensures r <==> maxDate.Some? && ShownMonth(date) == ShownMonth(maxDate.value)
    {
      AtBound(maxDate, date)
    }

    /** getDayClasses: the flags of the cell of day `cell`; within the
        displayed year they are the intended ones. */
    function DayClasses(cell: Date): (r: DayFlags)
      reads this
      ensures !(r.previousMonth && r.nextMonth)
      ensures cell.year == ConstructorYear(date.year) ==> r == IntendedCellFlags(date, selectedDate, events, cell)
    {
      CellFlags(date, selectedDate, events, cell)
    }

    /** getItems: the cells of the displayed month, pushed one by one. */
    method GetItems() returns (days: seq<Date>)
      requires Valid()
      ensures days == Items(date, 1, weekStartsOn, forceSixRows)
    {
      hide NewDate;
      hide GetDay;
      hide CellCount;
      hide GridStart;
      hide AddDaysJs;
      hide DayNumber;
      hide IsLeapYear;
      var year, month := date.year, date.month;
      var firstDayOfMonth := GetDay(NewDate(year, month, 1), 1, weekStartsOn);
      var daysInMonth := NewDate(year, month + 1, 0).day;
      var startOfWeek := NewDate(year, month, 1 - firstDayOfMonth);
      var amountOfDays :=
        if !forceSixRows then
          daysInMonth + firstDayOfMonth + (6 - GetDay(NewDate(year, month, daysInMonth), 1, weekStartsOn))
        else 42;
      ItemsByConstructor(date, 1, weekStartsOn, forceSixRows);
      days := [];
      var i := 0;
      while i < amountOfDays
        invariant 0 <= i && (i <= amountOfDays || i == 0)
        invariant |days| == i
        invariant forall k :: 0 <= k < i ==> days[k] == AddDaysJs(startOfWeek, k)
      {
        days := days + [AddDaysJs(startOfWeek, i)];
        i := i + 1;
      }
    }

    /** previousMonth: unless the displayed month is the lower bound's, move
        the displayed date one month back with setMonth. */
    method PreviousMonth()
      requires Valid()
      modifies this
      ensures Valid()
      ensures date == PreviousMonthClick(old(date), minDate)
      ensures selectedDate == old(selectedDate)
    {
      if IsMinDate() {
        return;
      }
      date := SetMonth(date, date.month - 1);
    }

    /** nextMonth: unless the displayed month is the upper bound's, move the
        displayed date one month on with setMonth. */
    method NextMonth()
      requires Valid()
      modifies this
      ensures Valid()
      ensures date == NextMonthClick(old(date), maxDate)
      ensures selectedDate == old(selectedDate)
    {
      if IsMaxDate() {
        return;
      }
      date := SetMonth(date, date.month + 1);
    }

    /** clickOnDay: toggle the selection of a day (see ClickResult). */
    method ClickOnDay(day: Date)
      requires Valid() && ValidDate(day)
      modifies this
      ensures Valid()
      ensures selectedDate == ClickResult(old(selectedDate), day, events)
      ensures date == old(date)
    {
      if selectedDate.Some? && selectedDate.value == day {
        selectedDate := None;
        return;
      }
      if DateString(day) in events {
        selectedDate := Some(day);
      }
    }
  }
}
