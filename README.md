# CalendarView date helpers and week row, in Dafny

This project models two parts of the CalendarView Android widget.

- **`CalendarUtil`** is the date helper class. It builds one day record (`getDate`), the Monday-to-Sunday week of a date (`getWeekDates`), and the weeks of a month (`getMonthOfWeekDate`, and `getMonthOfWeekDate2`, which returns the same cells as one flat list). It also gives the `Calendar`-style weekday (`getDayForWeek`) and converts between a pager position and a (year, month) pair (`positionToDate`, `getMonthPosition`).
- **`WeekView`** is one row of seven day cells. The model keeps its selection state (`selectDate`, `selectedDate`, `cancelSelected`, `setDateList`), the decisions `onDraw` makes for each cell, and `measureSize`.

Files:

- `gregorian.dfy` (module `Gregorian`): proleptic Gregorian arithmetic. It stands in for the date library the source calls (`LocalDate`, `plusWeeks`, `withDayOfWeek`, `getDayOfWeek`). Every valid date gets a day number, the count of days since 0001-01-01. ISO weekdays (Monday = 1) follow from it, and day numbers are injective, so two dates are equal when their day numbers are.
- `calendar_util.dfy` (module `CalendarUtil`):
  - The day record is a value (`Date`).
  - The solar-holiday table and the lunar converter come in as an `Almanac` value holding two functions.
  - The three list builders are methods whose loops mirror the source's `for` and `while` loops. Each is proved equal to a recursive specification: `WeekDates`, or `WeeksFrom` for the month walk.
  - Lemmas prove what those specifications promise: the grid's shape, its first and last day, contiguity and tagging.
- `week_view.dfy` (module `WeekView`):
  - The row is a class whose methods update `dates` and `selected` in place. `Valid()` is the invariant -1 <= selected < |dates|.
  - `Draw` runs `onDraw`'s two loops. For each cell it produces the colour and label chosen by `DayNumberColour` and `CellLabel`.

The constant names `TYPE_NEXT_MONTH` and `TYPE_LAST_MONTH` suggest a chronological comparison, but `getWeekDates` compares month numbers only (CalendarUtil.java:63-69), and the model follows the code. As a result:

- a January grid tags the leading December days NextMonth;
- a December grid tags the trailing January days LastMonth.

`YearBoundaryTags`, `January2021FirstCell` and `CellPlacement` state this behaviour as written.

## Model

| member | source | states |
|---|---|---|
| Gregorian.DayOfWeek | calendarview/src/main/java/com/ycuwq/calendarview/utils/CalendarUtil.java:20 | the weekday stored in a record is ISO, 1..7 with Monday = 1 |
| Gregorian.NewYear2021 | calendarview/src/main/java/com/ycuwq/calendarview/utils/CalendarUtil.java:20 | the weekday numbering agrees with the calendar: 2021-01-01 is a Friday (5) and the Monday before it is 2020-12-28 |
| Gregorian.WithDayOfWeek | calendarview/src/main/java/com/ycuwq/calendarview/utils/CalendarUtil.java:60 | `withDayOfWeek(w)` gives a valid date with weekday w in the same Monday-to-Sunday week |
| Gregorian.WeekStart | calendarview/src/main/java/com/ycuwq/calendarview/utils/CalendarUtil.java:60 | `withDayOfWeek(1)` gives the Monday of the week, 0..6 days before the date and DayOfWeek - 1 days before it |
| Gregorian.AddDays | calendarview/src/main/java/com/ycuwq/calendarview/utils/CalendarUtil.java:38 | `plusWeeks` and day stepping give a valid date whose day number is moved by exactly k |
| Gregorian.DayOfWeekPlusWeek | calendarview/src/main/java/com/ycuwq/calendarview/utils/CalendarUtil.java:38 | one week later has the same weekday |
| Gregorian.LastOfMonth | calendarview/src/main/java/com/ycuwq/calendarview/utils/CalendarUtil.java:36 | the last day of the month is DaysInMonth - 1 days after the 1st |
| CalendarUtil.GetDate | calendarview/src/main/java/com/ycuwq/calendarview/utils/CalendarUtil.java:17-29 | the record has the input's year, month and day, its ISO weekday, the given type, the solar holiday, and the lunar month, day and holiday as components 0, 1 and 2 of the converter's answer |
| CalendarUtil.TypeTag | calendarview/src/main/java/com/ycuwq/calendarview/utils/CalendarUtil.java:61-69 | ThisMonth iff the month numbers are equal, NextMonth iff the cell's month number is greater, LastMonth iff it is smaller; the year is ignored |
| CalendarUtil.TaggedDate | calendarview/src/main/java/com/ycuwq/calendarview/utils/CalendarUtil.java:61-70 | the cell is the record of the date, tagged by comparing month numbers |
| CalendarUtil.GetWeekDates | calendarview/src/main/java/com/ycuwq/calendarview/utils/CalendarUtil.java:56-74 | the loop returns exactly the specification week `WeekDates` of (year, month, day) |
| CalendarUtil.WeekDatesShape | calendarview/src/main/java/com/ycuwq/calendarview/utils/CalendarUtil.java:56-74 | the week has 7 records; the i-th is i days after the Monday and has ISO weekday i + 1; the records are consecutive days; the input date is at position DayOfWeek - 1 |
| CalendarUtil.YearBoundaryTags | calendarview/src/main/java/com/ycuwq/calendarview/utils/CalendarUtil.java:61-69 | a January week starting in December tags that December Monday NextMonth; a December week ending in January tags that January Sunday LastMonth |
| CalendarUtil.January2021FirstCell | calendarview/src/main/java/com/ycuwq/calendarview/utils/CalendarUtil.java:56-74 | the week of 2021-01-01 opens with 2020-12-28 tagged NextMonth |
| CalendarUtil.NextWeekStart | calendarview/src/main/java/com/ycuwq/calendarview/utils/CalendarUtil.java:38 | `plusWeeks(1).withDayOfWeek(1)` is the next week's Monday, strictly later and at most 7 days on |
| CalendarUtil.LoopGuardInWalk | calendarview/src/main/java/com/ycuwq/calendarview/utils/CalendarUtil.java:36 | on the dates the loop visits, its guard holds exactly until the last day of the month is passed, and then the date is in the month |
| CalendarUtil.WeeksFromStep | calendarview/src/main/java/com/ycuwq/calendarview/utils/CalendarUtil.java:36-39 | one iteration emits the week of the current date and continues from the next Monday, staying on the walk |
| CalendarUtil.WeeksFromLength | calendarview/src/main/java/com/ycuwq/calendarview/utils/CalendarUtil.java:32-42 | the walk emits weeks iff it starts on or before the last day, and its weeks end on or after that day |
| CalendarUtil.WeeksFromCell | calendarview/src/main/java/com/ycuwq/calendarview/utils/CalendarUtil.java:32-42 | one cell of the walk: week j has 7 cells, cell i being the date 7j + i days after the starting week's Monday, tagged against the month |
| CalendarUtil.WeeksFromCells | calendarview/src/main/java/com/ycuwq/calendarview/utils/CalendarUtil.java:32-42 | every emitted week has 7 cells, and cell i of week j is the date 7j + i days after the starting week's Monday |
| CalendarUtil.GetMonthOfWeekDate | calendarview/src/main/java/com/ycuwq/calendarview/utils/CalendarUtil.java:32-42 | the `while` loop terminates and returns exactly the walk specification `WeeksFrom` from the 1st of the month |
| CalendarUtil.GetMonthOfWeekDate2 | calendarview/src/main/java/com/ycuwq/calendarview/utils/CalendarUtil.java:44-53 | the loop returns exactly the concatenation of the weeks `getMonthOfWeekDate` returns |
| CalendarUtil.MonthGridSize | calendarview/src/main/java/com/ycuwq/calendarview/utils/CalendarUtil.java:32-42 | a month has 4 to 6 weeks; the first week contains the 1st and the last week contains the last day |
| CalendarUtil.MonthGrid | calendarview/src/main/java/com/ycuwq/calendarview/utils/CalendarUtil.java:32-42 | every week has 7 cells, and cell i of week j is the date 7j + i days after the Monday on or before the 1st |
| CalendarUtil.MonthGridCell | calendarview/src/main/java/com/ycuwq/calendarview/utils/CalendarUtil.java:32-42 | the same fact for one cell |
| CalendarUtil.MonthGridFirst | calendarview/src/main/java/com/ycuwq/calendarview/utils/CalendarUtil.java:34-37 | the first week holds the 1st of the month at position DayOfWeek(1st) - 1 |
| CalendarUtil.MonthGridLast | calendarview/src/main/java/com/ycuwq/calendarview/utils/CalendarUtil.java:36-39 | the last week holds the last day of the month at position DayOfWeek(last) - 1 |
| CalendarUtil.MonthGridContiguous | calendarview/src/main/java/com/ycuwq/calendarview/utils/CalendarUtil.java:36-39 | each week starts the day after the previous week ends, so there are no gaps and no repeated days |
| CalendarUtil.MonthGridTags | calendarview/src/main/java/com/ycuwq/calendarview/utils/CalendarUtil.java:61-69 | cell k of the grid is ThisMonth iff it lies between the 1st and the last day, and then it is day k - offset + 1; earlier cells are the previous month and later cells the next one, tagged by month number as written |
| CalendarUtil.MonthGridCellPlacement | calendarview/src/main/java/com/ycuwq/calendarview/utils/CalendarUtil.java:61-69 | the same placement and tagging fact for one cell |
| CalendarUtil.WeeksFromFlat | calendarview/src/main/java/com/ycuwq/calendarview/utils/CalendarUtil.java:44-53 | the flat list of a walk has 7 cells per week, and cell k is the date k days after the starting Monday |
| CalendarUtil.MonthListCells | calendarview/src/main/java/com/ycuwq/calendarview/utils/CalendarUtil.java:44-53 | `getMonthOfWeekDate2` returns 28 to 42 records, a multiple of 7, and record k is the date k days after the Monday on or before the 1st |
| CalendarUtil.DayForWeek | calendarview/src/main/java/com/ycuwq/calendarview/utils/CalendarUtil.java:79-84 | the `Calendar.DAY_OF_WEEK` value is 1..7 with Sunday = 1, one ahead of the ISO weekday and wrapping Sunday to 1 |
| CalendarUtil.DayForWeekSunday | calendarview/src/main/java/com/ycuwq/calendarview/utils/CalendarUtil.java:79-84 | `getDayForWeek` gives 1 exactly for the dates whose record stores week 7 |
| CalendarUtil.MonthPosition | calendarview/src/main/java/com/ycuwq/calendarview/utils/CalendarUtil.java:105-110 | for valid months the difference is 0 iff the months are equal, and positive iff the second is later |
| CalendarUtil.PositionToDate | calendarview/src/main/java/com/ycuwq/calendarview/utils/CalendarUtil.java:90-99 | for position >= 0 and a start month in 1..12, the result month is in 1..12 and lies exactly `position` months after the start |
| CalendarUtil.PositionRoundTrip | calendarview/src/main/java/com/ycuwq/calendarview/utils/CalendarUtil.java:90-110 | every month at or after the start is returned for its own `getMonthPosition` |
| CalendarUtil.MonthPositionAntisymmetric | calendarview/src/main/java/com/ycuwq/calendarview/utils/CalendarUtil.java:105-110 | a month is 0 from itself, and swapping the two months negates the difference |
| CalendarUtil.MonthPositionAdditive | calendarview/src/main/java/com/ycuwq/calendarview/utils/CalendarUtil.java:105-110 | differences add up along three months |
| CalendarUtil.MonthPositionNext | calendarview/src/main/java/com/ycuwq/calendarview/utils/CalendarUtil.java:105-110 | the calendar month after a month is 1 position on |
| CalendarUtil.PositionToDateStep | calendarview/src/main/java/com/ycuwq/calendarview/utils/CalendarUtil.java:90-99 | position + 1 maps to the calendar month after the month of position |
| WeekView.IndexOf | calendarview/src/main/java/com/ycuwq/calendarview/WeekView.java:105 | `indexOf` gives -1 or the first position holding the same day, and -1 only when no position does |
| WeekView.WeekView.constructor | calendarview/src/main/java/com/ycuwq/calendarview/WeekView.java:74-83 | a new row holds the given records and order, with no cell selected (-1), so it is valid |
| WeekView.WeekView.SetDateList | calendarview/src/main/java/com/ycuwq/calendarview/WeekView.java:85-87 | replaces the records and touches nothing else, the selection included |
| WeekView.WeekView.SelectedDate | calendarview/src/main/java/com/ycuwq/calendarview/WeekView.java:113-118 | selects p iff 0 <= p < size, otherwise leaves the selection unchanged, and keeps the invariant |
| WeekView.WeekView.CancelSelected | calendarview/src/main/java/com/ycuwq/calendarview/WeekView.java:120-125 | a selection above -1 becomes -1, any other is kept; on a valid row the result is -1 |
| WeekView.CancelSelectedTwice | calendarview/src/main/java/com/ycuwq/calendarview/WeekView.java:120-125 | a second cancel changes nothing |
| WeekView.WeekView.SelectDate | calendarview/src/main/java/com/ycuwq/calendarview/WeekView.java:104-111 | selects the first cell showing the date, or cancels when none does; on a valid row the selection becomes `IndexOf`, -1 included |
| WeekView.SelectedBackgroundGuard | calendarview/src/main/java/com/ycuwq/calendarview/WeekView.java:170 | on a valid row of at most 7 cells the background is drawn iff a cell is selected |
| WeekView.StaleSelection | calendarview/src/main/java/com/ycuwq/calendarview/WeekView.java:85-87 | after selecting cell 5 of a full week and then setting a list of 3 records, the row is invalid and `onDraw` still draws the background at 5 |
| WeekView.WeekView.Draw | calendarview/src/main/java/com/ycuwq/calendarview/WeekView.java:168-220 | `onDraw` draws the selected background iff 0 <= selected < 7, colours day number i by `DayNumberColour` and labels cell i by `CellLabel` |
| WeekView.DayNumberColour | calendarview/src/main/java/com/ycuwq/calendarview/WeekView.java:181-189 | the click colour iff the cell is selected, the top colour iff it is unselected and ThisMonth, the bottom colour otherwise |
| WeekView.CellLabel | calendarview/src/main/java/com/ycuwq/calendarview/WeekView.java:193-216 | a non-empty solar holiday beats a non-empty lunar holiday, which beats the lunar day (shown only with lunar labels on); without holidays only the lunar day can appear; the selected cell and a row with both flags off get no label |
| WeekView.MeasureSize | calendarview/src/main/java/com/ycuwq/calendarview/WeekView.java:134-140 | specSize in EXACTLY mode, otherwise the minimum of specSize and size, which is at most specSize |

## Left out

- Drawing, touch and layout plumbing is not modelled: `Canvas`, `Paint`, `Drawable`, `postInvalidate`, the touch slop, `onTouchEvent`, `onSizeChanged` and `onMeasure`. These use float coordinates and platform measurements. `Draw` keeps only `onDraw`'s decisions, and `showLunar`/`showHoliday` come in as parameters in place of the delegate.
- The demo constructor (WeekView.java:57-72) hard-codes sample dates, so it is not modelled.
- The selected-day listener and its setter are not modelled.
- `getCurrentDate` (CalendarUtil.java:112-114) reads the system clock, so it is not modelled.
- `LunarUtil` and `SolarUtil` are not part of this model. They appear as the two functions of an `Almanac`.
  - A null holiday or lunar string is folded into the empty string.
  - The converter's `String[]` is a triple.
- `Date` is not part of this model.
  - It is a value record, so the setter calls that fill a fresh object are one constructor.
  - Its equality, as `indexOf` uses it, is taken to be equality of year, month and day.
- Java's date library is replaced by proleptic Gregorian arithmetic on valid dates. `Calendar`'s Julian cutover before 1582 is not modelled.
- Invalid arguments are preconditions. The library throws on an invalid month or day, so `GetWeekDates`, `GetMonthOfWeekDate` and `GetMonthOfWeekDate2` require a valid date or month.
- DayForWeek: requires a valid date. It does not model `Calendar`'s lenient rollover of out-of-range days and months.
- PositionToDate: requires position >= 0. For a negative position, Java's truncating `/` and `%` differ from Dafny's, and the source does not handle that case.
- MonthPosition: Java `int` overflow is not modelled; Dafny integers are unbounded. The same holds for every other integer in the model.
- WeekView.WeekView.SetDateList and WeekView.WeekView.constructor: the source keeps the caller's `List<Date>` by reference (WeekView.java:77, :86), while the model copies a `seq` value. Later changes the caller makes to that list are not captured: they change what `onDraw` iterates over, and they can break -1 <= selected < size without any WeekView call.
- CellLabel: a lunar day the converter reports as null is modelled as the empty string. The model labels that cell with an empty label, while the source draws nothing.
