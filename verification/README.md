# Month calendar component, modelled in Dafny

`calendar.js` is a React month-view calendar. For the displayed month it
builds a grid of consecutive days. The grid starts on the configured week
start and is padded to whole weeks, or forced to six rows of seven. Each
cell gets modifier flags: previous month, next month, has an event,
selected. Two buttons move the displayed month back and forth and are
blocked at an optional lower and upper bound month. A click on a day
selects it when the day carries an event, and a click on the selected day
clears the selection.

The project has four modules:

- `CivilDate` (`civil_date.dfy`) holds the calendar arithmetic behind the
  JavaScript `Date` calls the component makes:
  - a day is a (year, month 0..11, day) triple;
  - `DayNumber` counts days on the proleptic Gregorian calendar and gives
    the weekday;
  - `AddDays` steps a day at a time;
  - `Normalize` is the overflowing arithmetic of `new Date(y, m, d)`,
    `setDate` and `setMonth`;
  - `ConstructorYear` is the constructor's reading of years 0..99 as
    1900..1999.
- `DateKey` (`date_key.dfy`) holds the `YYYY-MM-DD` event key and a parser
  that reads it back.
- `MonthGrid` (`month_grid.dfy`) holds getDay, getDaysInMonth and the grid
  of getItems as functions, with the lemmas about the grid.
- `CalendarComponent` (`calendar.dfy`) holds the component:
  - the month bounds;
  - the month buttons;
  - the selection toggle;
  - the cell flags;
  - the class `Calendar`. Its variable fields are the state (`date`,
    `selectedDate`) and its constant fields are the props. Its methods are
    proved to do what the functions before it describe.

The class keeps the behaviour of the code as written. Where the code
evidently means something else (see "## Findings"), the intended
definition stands beside it and the intended property is proved about it.

Selection follows the code. Two clicks on an event day do not always
restore the selection: a selected day becomes unselected and then selected
again, but a selection on another day is lost. A click on the selected day
clears it even when that day has no event. `ClickTwice` and `ClickClears`
state exactly when each happens.

## Model

| member | source | states |
|---|---|---|
| MonthGrid.GetDay | calendar.js:52-56 | the result is the weekday minus weekStartsOn, plus 7 exactly when the weekday is below the threshold parameter |
| MonthGrid.GetDayColumnRange | calendar.js:52-56 | when the threshold equals weekStartsOn the column is in 0..6 and equals (weekday − weekStartsOn + 7) mod 7 |
| MonthGrid.DefaultThresholdOffsets | calendar.js:52-56 | with the default threshold 1 the column lies in −5..7; it is 7 exactly for a Sunday when weeks start on Sunday; it is negative exactly for weekdays 1..weekStartsOn−1; it stays in 0..6 when weeks start on Monday |
| MonthGrid.DaysInMonth | calendar.js:58-63 | the month length is 28..31; February has 29 days exactly in a Gregorian leap year; April, June, September and November have 30 days |
| MonthGrid.DayZero | calendar.js:62 | day 0 of the next month, as built by the constructor, is the last day of the month, and its day of the month is the month length |
| MonthGrid.FirstOfMonth | calendar.js:100 | `new Date(year, month)` is a valid day 1 in the month the constructor makes of year and month |
| MonthGrid.LastOfMonth | calendar.js:103 | the last day of the month lies in the displayed month, month length − 1 days after its first day |
| MonthGrid.MonthEndsByConstructor | calendar.js:100-103 | the constructor calls for day 1 and for day daysInMonth give the first and the last day of the month |
| MonthGrid.FirstOffset | calendar.js:100 | firstDayOfMonth is the column of the 1st: it differs from the 1st's weekday minus weekStartsOn by a multiple of 7, and lies in 0..6 when the threshold equals weekStartsOn |
| MonthGrid.GridStart | calendar.js:102 | the grid starts firstOffset days before the first of the month |
| MonthGrid.GridStartByConstructor | calendar.js:102 | `new Date(year, month, 1 - firstDayOfMonth)` is that grid start |
| MonthGrid.ItemsByConstructor | calendar.js:100-103 | the four constants getItems computes with the constructor equal firstOffset, the month length, the grid start and the cell count |
| MonthGrid.CellCount | calendar.js:103 | with forceSixRows the count is 42; for a week start in 0..6 it is at least 15 |
| MonthGrid.Items | calendar.js:96-112 | the grid has amountOfDays cells (none when the count is negative), and every cell is a valid day |
| MonthGrid.WholeWeeks | calendar.js:103 | the cell count is a multiple of 7 for every threshold and week start |
| MonthGrid.ItemIsShift | calendar.js:107-109 | cell i is the grid start plus i days |
| MonthGrid.GridCell | calendar.js:107-109 | cell i is i − firstOffset days after the first of the month |
| MonthGrid.GridStartYear | calendar.js:102 | the grid start never lies in a year 0..99, so addDays' constructor call keeps its year |
| MonthGrid.GridColumns | calendar.js:96-112 | for every threshold, the cell at index i has weekday (weekStartsOn + i) mod 7, so it sits in week column i mod 7 |
| MonthGrid.GridConsecutive | calendar.js:107-109 | each cell is the day after the one before it, and the cells strictly increase |
| MonthGrid.GridDayOfMonth | calendar.js:96-112 | for every threshold, day j of the displayed month sits at index firstOffset + j − 1 whenever that index lies inside the grid |
| MonthGrid.GridDayOnce | calendar.js:96-112 | day j of the month occurs at no other index |
| MonthGrid.LeadCellMonth | calendar.js:96-112 | cells before firstOffset lie in earlier months |
| MonthGrid.TrailCellMonth | calendar.js:96-112 | cells from firstOffset + daysInMonth on lie in later months |
| MonthGrid.GridSize | calendar.js:100-103 | when the threshold equals weekStartsOn, firstOffset is in 0..6 and the grid has 28 to 42 cells |
| MonthGrid.GridEnds | calendar.js:102-103 | for every threshold, the first cell is firstOffset days before the 1st, the last cell falls on the weekday before weekStartsOn, and without forceSixRows the last cell is 6 − getDay(last day) days after the last day; only when the threshold equals weekStartsOn is that 0..6 days, so that the last cell ends the week of the month's last day |
| MonthGrid.GridLastCell | calendar.js:103-109 | for every threshold, the grid is not empty, has amountOfDays cells, and its last cell is amountOfDays − 1 − firstOffset days after the 1st, on the weekday before weekStartsOn |
| MonthGrid.GridCoversMonth | calendar.js:96-112 | when the threshold equals weekStartsOn, every day of the month is in the grid at index firstOffset + j − 1 |
| MonthGrid.MonthFitsGrid | calendar.js:103 | when the threshold equals weekStartsOn, the days of the month fit inside the grid |
| MonthGrid.DefaultThresholdDropsFirst | calendar.js:52-56 | with threshold 1, a month whose first weekday lies in 1..weekStartsOn−1 gets a negative firstOffset, and every day 1..−firstOffset is missing from the grid |
| MonthGrid.DefaultThresholdDropsLast | calendar.js:100-103 | with threshold 1 and weeks starting on Sunday, a month ending on a Sunday gives that Sunday column 7, and the month's last day is missing from the grid |
| MonthGrid.DefaultThresholdExtraWeek | calendar.js:100-102 | with threshold 1 and weeks starting on Sunday, a month beginning on a Sunday gets firstOffset 7, and the first seven cells all lie in earlier months |
| MonthGrid.DefaultThresholdExtraTrailWeek | calendar.js:100-103 | with threshold 1 and weeks starting on Tuesday or later, a month whose last day falls on Monday..weekStartsOn−1 gives that day a negative column; the unforced grid then has at least firstOffset + daysInMonth + 7 cells, and its last seven cells all lie in later months |
| MonthGrid.October2024MissesFirst | calendar.js:100-102 | October 2024 with weeks starting on Wednesday: firstOffset is −1 and 2024-10-01 is not in the grid |
| MonthGrid.April2024MissesFirstFive | calendar.js:100-102 | April 2024 with weeks starting on Saturday: firstOffset is −5 and April 1 to 5 are not in the grid |
| MonthGrid.March2024MissesLast | calendar.js:100-103 | March 2024 with weeks starting on Sunday: the grid has 35 cells and 2024-03-31, a Sunday, is not in it |
| MonthGrid.September2024ExtraTrailWeek | calendar.js:100-109 | September 2024 (Sunday 1st, Monday 30th) with weeks starting on Wednesday: the component's grid has 42 cells and ends on 2024-10-08; with the threshold at weekStartsOn it has 35 cells and ends on 2024-10-01 |
| MonthGrid.February2024Columns | calendar.js:100-103 | February 2024 with weeks on Monday: 29 days, firstOffset 3, the 29th is in column 3 |
| MonthGrid.February2024Count | calendar.js:103 | that grid has 35 cells, or 42 with forceSixRows |
| MonthGrid.February2024Start | calendar.js:102 | that grid starts on 2024-01-29 |
| MonthGrid.February2024End | calendar.js:107-109 | that grid ends on 2024-03-03, or on 2024-03-10 with forceSixRows |
| CivilDate.AddDaysJs | calendar.js:89-94 | addDays gives a valid day; outside years 0..99 it is exactly n days after the given day |
| CivilDate.AddDaysUnique | calendar.js:89-94 | a day is the result of adding n days exactly when its day number is n more |
| CivilDate.AddDaysAdd | calendar.js:89-94 | adding a days and then b days equals adding a + b days |
| CivilDate.WeekdayAddDays | calendar.js:53 | adding n days advances the weekday by n modulo 7 |
| CivilDate.Normalize | calendar.js:91 | the result is a valid day, d − 1 days after the first of month m of year y; a month outside 0..11 is carried into the neighbouring years |
| CivilDate.NewDate | calendar.js:100-103 | `new Date(y, m, d)` is a valid day, and a month and day that exist in the constructor's year are kept as they are |
| CivilDate.SetMonth | calendar.js:213-225 | `setMonth(m)` gives a valid day, and keeps year and day when month m has that day |
| CivilDate.NormalizeShift | calendar.js:91 | `setDate(getDate() + n)` on a valid day moves it n days |
| CivilDate.SetMonthForward | calendar.js:225 | `setMonth(month + 1)` gives the same day of the next month when that month has the day; otherwise it spills into the month after it |
| CivilDate.SetMonthBackward | calendar.js:213 | `setMonth(month - 1)` gives the same day of the previous month when that month has the day; otherwise it spills back into the current month |
| CivilDate.ConstructorYear | calendar.js:184-185 | the constructor reads a year y in 0..99 as 1900 + y, keeps every other year, and so never yields a year in 0..99 |
| DateKey.DateString | calendar.js:77-87 | the key of a valid day is the printed year followed by a dash, two digits, a dash and two digits |
| DateKey.Pad | calendar.js:78-84 | pad gives exactly two digits for 0..99 |
| DateKey.DateKeyRoundTrip | calendar.js:77-87 | the key of a valid day parses back to that day |
| DateKey.DateKeyInjective | calendar.js:77-87 | two valid days have the same key exactly when they are the same day |
| DateKey.DateKeyShape | calendar.js:77-87 | for years 1000..9999 the key is ten characters, digits around dashes at positions 4 and 7 |
| DateKey.PadTwoDigits | calendar.js:78-84 | pad gives exactly two digits for 1..99 that read back as the number |
| DateKey.ParseIntToString | calendar.js:86 | the printed year reads back as the year |
| CalendarComponent.AtBound | calendar.js:182-206 | isMinDate / isMaxDate hold exactly when the bound is set and its month, as the constructor reads years, is the displayed month |
| CalendarComponent.MonthStartsEqual | calendar.js:184-187 | two `new Date(year, month)` values are the same instant exactly when their months, as the constructor reads years, are equal |
| CalendarComponent.InBoundMonthIsAtBound | calendar.js:182-206 | a displayed date in the bound's month is at the bound |
| CalendarComponent.PreviousMonthDate | calendar.js:213 | the displayed date moves to the same day one month back; when that month is shorter it spills into the current month |
| CalendarComponent.NextMonthDate | calendar.js:225 | the displayed date moves to the same day one month on; when that month is shorter it spills into the month after it |
| CalendarComponent.PreviousMonthClick | calendar.js:208-218 | the displayed date stays the same exactly when the lower bound is reached |
| CalendarComponent.NextMonthClick | calendar.js:220-230 | the displayed date stays the same exactly when the upper bound is reached |
| CalendarComponent.PreviousMonthKeepsBounds | calendar.js:208-218 | from a day up to 28 between the bounds, one click keeps the day and stays between the bounds |
| CalendarComponent.NextMonthKeepsBounds | calendar.js:220-230 | from a day up to 28 between the bounds, one click keeps the day and stays between the bounds |
| CalendarComponent.NavigateKeepsBounds | calendar.js:208-230 | from a day up to 28 between the bounds, no run of clicks leaves the bounds or changes the day |
| CalendarComponent.NextMonthPassesMaxDate | calendar.js:220-230 | from 2023-01-31 with the upper bound in February 2023, nextMonth lands on 2023-03-03, past the bound |
| CalendarComponent.PreviousMonthStaysInMonth | calendar.js:208-218 | from 2023-03-31, previousMonth lands on 2023-03-03 |
| CalendarComponent.ClampedMonthStep | calendar.js:213-225 | the intended step moves exactly one month and keeps the day, or clamps it to the last day of a shorter month |
| CalendarComponent.ClampedNavigateKeepsBounds | calendar.js:208-230 | with the clamped step, no run of clicks leaves the bounds, whatever the day |
| CalendarComponent.ClickResult | calendar.js:232-246 | a click keeps the selection, clears the selected day, or selects an event day; it changes nothing exactly when the day is not selected and has no event |
| CalendarComponent.ClickSelects | calendar.js:232-246 | a click selects the day exactly when it has an event and was not selected |
| CalendarComponent.ClickClears | calendar.js:232-246 | a click leaves nothing selected exactly when it hits the selected day, or nothing was selected and the day has no event |
| CalendarComponent.ClickTwice | calendar.js:232-246 | two clicks on a day restore the selection exactly in the cases listed there |
| CalendarComponent.ClickKeepsEventSelection | calendar.js:232-246 | a selection that is an event day stays an event day after any click |
| CalendarComponent.CellFlags | calendar.js:135-151 | the previous- and next-month flags never both hold, and one of them holds exactly when the cell's month number differs from the displayed one |
| CalendarComponent.EventFlagMarksDay | calendar.js:143-146 | with one event, the event flag marks exactly the day of that event |
| CalendarComponent.FlagsAgreeWithinYear | calendar.js:135-141 | for a cell in the displayed year, the flags as written equal the intended flags |
| CalendarComponent.GridFlagsIntended | calendar.js:135-141 | on the grid whose getDay threshold equals weekStartsOn, with the intended flags, a grid cell is previous-month exactly before firstOffset and next-month exactly after the month's days |
| CalendarComponent.January2025LeadDayFlags | calendar.js:135-141 | in January 2025 with weeks on Monday, the lead day 2024-12-30 gets the next-month flag rather than previous-month |
| CalendarComponent.Calendar.constructor | calendar.js:47-50 | the state starts from the given date and selection |
| CalendarComponent.Calendar.IsMinDate | calendar.js:182-193 | true exactly when the lower bound is set and lies in the displayed month |
| CalendarComponent.Calendar.IsMaxDate | calendar.js:195-206 | true exactly when the upper bound is set and lies in the displayed month |
| CalendarComponent.Calendar.DayClasses | calendar.js:124-154 | the two month flags never both hold, and for a cell in the displayed year the flags are the intended ones |
| CalendarComponent.Calendar.GetItems | calendar.js:96-112 | the loop pushes exactly the cells of the grid function Items, with threshold 1 |
| CalendarComponent.Calendar.PreviousMonth | calendar.js:208-218 | the new date is PreviousMonthClick of the old one, and the selection is unchanged |
| CalendarComponent.Calendar.NextMonth | calendar.js:220-230 | the new date is NextMonthClick of the old one, and the selection is unchanged |
| CalendarComponent.Calendar.ClickOnDay | calendar.js:232-246 | the new selection is ClickResult of the old one, and the displayed date is unchanged |

## Left out

- Rendering is not modelled: the JSX, the click wiring, the class-name strings, and the weekday and button class helpers. Only the boolean flags behind the classes are.
- Localisation is not modelled. The month and weekday name tables are plain lookups.
- The today flag (calendar.js:131-133) is not modelled. It compares object identity, which a cell built by addDays never has.
- The finite range of a JavaScript `Date` is not modelled. It spans ±8.64e15 ms, and past it `setMonth` yields an Invalid Date. Invalid Date props are not modelled either. Years here are unbounded integers, and every day is a valid calendar day.
- Time of day, time zones and daylight saving are not modelled. A JavaScript `Date` is taken to be its calendar day, so `getTime()` equality is day equality.
- The clock is not modelled. The default date and today read the wall clock, so the initial date and selection are constructor parameters.
- React's `setState` is not modelled as scheduling. It is a direct assignment to the state fields.
- Aliasing of the date is not modelled. previousMonth and nextMonth mutate the props' `Date` object in place, so the parent's object changes too. The model replaces the value of the `date` field. When `selectedDate`, `minDate` or `maxDate` is the same object as `date`, the source moves it along with the displayed date. CalendarComponent.Calendar.PreviousMonth and CalendarComponent.Calendar.NextMonth promise that the selection stays unchanged, which describes only dates that are distinct objects.
- The grid lemmas assume weekStartsOn in 0..6 and a displayed year other than 100. Only January of year 100 has a grid start in year 99, which addDays' constructor call would turn into 1999.
- CivilDate.AddDaysJs: the ensures relates the result to AddDays only for years outside 0..99. For those years the body still follows the constructor's 1900 offset.
- MonthGrid.GridCoversMonth: stated for a threshold equal to weekStartsOn only. For the component's threshold 1, four lemmas show what goes wrong. MonthGrid.DefaultThresholdDropsFirst covers week starts 2..6, where a month whose first day falls before the week start loses its first days. MonthGrid.DefaultThresholdExtraTrailWeek covers week starts 2..6, where a month whose last day falls before the week start gets more than a week of trail days (September 2024 with weeks on Wednesday runs to 8 October). MonthGrid.DefaultThresholdDropsLast covers a Sunday start, where a month ending on a Sunday loses its last day. MonthGrid.DefaultThresholdExtraWeek covers a Sunday start, where a month beginning on a Sunday gets a whole extra leading week.
- MonthGrid.MonthFitsGrid: stated for a threshold equal to weekStartsOn only; with the component's threshold 1 and weeks on Sunday, a month ending on a Sunday does not fit (MonthGrid.March2024MissesLast).
- MonthGrid.GridEnds: the reading "the last cell ends the week of the month's last day" is stated for a threshold equal to weekStartsOn only; for other thresholds the lemma gives the exact distance 6 − getDay(last day), which may be negative or more than 6.
- CalendarComponent.GridFlagsIntended: stated on the grid whose threshold equals weekStartsOn, the grid the corrected getDay builds.
- CalendarComponent.NavigateKeepsBounds: holds only for days up to 28. CalendarComponent.NextMonthPassesMaxDate shows why.

## Findings

| source | as written | input that shows it | evidently intended | confidence | as-written member | corrected member |
|---|---|---|---|---|---|---|
| calendar.js:52-56 | getDay compares the weekday with its own parameter. That parameter defaults to 1 and is never passed. getDay then subtracts the prop weekStartsOn. | weekStartsOn = 3 and October 2024, whose 1st is a Tuesday: firstDayOfMonth is −1, and 1 October is missing. With weekStartsOn = 6, April 2024 loses April 1 to 5 | compare with weekStartsOn, so that the first offset is (weekday − weekStartsOn + 7) mod 7 | high; not executed | MonthGrid.October2024MissesFirst | MonthGrid.GridCoversMonth |
| calendar.js:100-103 | With the same threshold of 1 and weeks starting on Sunday, getDay gives a Sunday column 7. amountOfDays then subtracts 7 for a month ending on a Sunday, and adds a leading week for a month beginning on one. | weekStartsOn = 0 and March 2024, which ends on a Sunday: the grid has 35 cells and 31 March is missing | a Sunday in column 0, so that the grid holds every day of the month | high; not executed | MonthGrid.March2024MissesLast | MonthGrid.GridCoversMonth |
| calendar.js:100-103 | With the same threshold of 1 and weeks starting on Tuesday or later, a last day falling on Monday up to the day before the week start gets a negative column, and `6 - getDay(last)` then adds more than a week of next-month days. | weekStartsOn = 3 and September 2024, which begins on a Sunday and ends on a Monday: amountOfDays is 30 + 4 + 8 = 42 and the grid runs from 28 August to 8 October | the last day in column (weekday − weekStartsOn + 7) mod 7, so that the grid ends the week of the last day | high; not executed | MonthGrid.September2024ExtraTrailWeek | MonthGrid.GridEnds |
| calendar.js:220-230 | nextMonth calls `setMonth(month + 1)` on a date that keeps its day of the month. Days 29..31 overflow past the next month. | 2023-01-31 with maxDate 2023-02-15: the next click lands on 2023-03-03, past the upper bound | step to the neighbouring month, with the day clamped to that month's length | high; not executed | CalendarComponent.NextMonthPassesMaxDate | CalendarComponent.ClampedNavigateKeepsBounds |
| calendar.js:135-141 | The previous-month and next-month flags compare `getMonth()` only and ignore the year. | January 2025 with weeks on Monday: the lead cell 2024-12-30 has month 11 > 0, so it is flagged next-month | compare year and month together | high; not executed | CalendarComponent.January2025LeadDayFlags | CalendarComponent.GridFlagsIntended |
