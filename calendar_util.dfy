/**
 * The date helpers of the calendar widget: one day record, the week of a
 * date, the weeks of a month, the `Calendar`-style weekday, and the
 * conversion between a pager position and a (year, month) pair.
 *
 * The proofs about weeks and grids reason from the postconditions of the
 * date and record functions; they hide those functions' bodies, which
 * would only add calendar arithmetic the proofs do not need.
 */
module CalendarUtil {
  import opened Gregorian

  /** Which month a displayed day belongs to, relative to the month asked for. */
  datatype DayType = ThisMonth | NextMonth | LastMonth

  /** What the lunar converter reports for one solar date. */
  datatype LunarDate = LunarDate(month: string, day: string, holiday: string)

  /**
   * The two collaborators whose code is not part of this model: the
   * solar-holiday table and the solar-to-lunar converter, both keyed by
   * (year, month, day). An empty string stands for "no holiday".
   */
  datatype Almanac = Almanac(
    solarHoliday: (int, int, int) -> string,
    solarToLunar: (int, int, int) -> LunarDate)

  /** One day cell of the calendar. */
  datatype Date = Date(
    year: int, month: int, day: int,
    week: int,
    holiday: string,
    kind: DayType,
    lunarMonth: string, lunarDay: string, lunarHoliday: string)

  function DateOf(r: Date): LocalDate {
    LocalDate(r.year, r.month, r.day)
  }

  /** The record of `d`, with the given membership type. */
  function GetDate(al: Almanac, d: LocalDate, kind: DayType): (r: Date)
    requires IsValid(d)
    ensures DateOf(r) == d && IsValid(DateOf(r))
    ensures r.week == DayOfWeek(d) && r.kind == kind
    ensures r.holiday == al.solarHoliday(d.year, d.month, d.day)
    ensures var lunar := al.solarToLunar(d.year, d.month, d.day);
      r.lunarMonth == lunar.month && r.lunarDay == lunar.day && r.lunarHoliday == lunar.holiday
  {
    var lunar := al.solarToLunar(d.year, d.month, d.day);
    Date(d.year, d.month, d.day, DayOfWeek(d), al.solarHoliday(d.year, d.month, d.day),
         kind, lunar.month, lunar.day, lunar.holiday)
  }

  /** The membership type of a day of month `dayMonth` in a week built for `month`: month numbers only, the year is not looked at. */
  function TypeTag(dayMonth: int, month: int): (t: DayType)
    ensures t == ThisMonth <==> dayMonth == month
    ensures t == NextMonth <==> dayMonth > month
    ensures t == LastMonth <==> dayMonth < month
  {
    if dayMonth == month then ThisMonth
    else if dayMonth > month then NextMonth
    else LastMonth
  }

  function TaggedDate(al: Almanac, d: LocalDate, month: int): (r: Date)
    requires IsValid(d)
    ensures DateOf(r) == d && r.kind == TypeTag(d.month, month)
  {
    GetDate(al, d, TypeTag(d.month, month))
  }

  /** The i-th (from 0) record of the week of `d`, tagged against `month`. */
  function WeekCell(al: Almanac, d: LocalDate, month: int, i: int): (r: Date)
    requires IsValid(d) && 0 <= i < 7
  {
    TaggedDate(al, WithDayOfWeek(d, i + 1), month)
  }

  /** The first `n` records (Monday first) of the week containing `d`, tagged against `month`. */
  function WeekPrefix(al: Almanac, d: LocalDate, month: int, n: int): (w: seq<Date>)
    requires IsValid(d) && 0 <= n <= 7
    ensures |w| == n
  {
    if n == 0 then [] else WeekPrefix(al, d, month, n - 1) + [WeekCell(al, d, month, n - 1)]
  }

  lemma {:induction false} WeekPrefixCells(al: Almanac, d: LocalDate, month: int, n: int)
    requires IsValid(d) && 0 <= n <= 7
    ensures forall i :: 0 <= i < n ==> WeekPrefix(al, d, month, n)[i] == WeekCell(al, d, month, i)
  {
    hide WeekCell;
    if n > 0 {
      WeekPrefixCells(al, d, month, n - 1);
      var p := WeekPrefix(al, d, month, n - 1);
      assert WeekPrefix(al, d, month, n) == p + [WeekCell(al, d, month, n - 1)];
    }
  }

  /** One more record: the day with weekday `w`, tagged by comparing month numbers. */
  lemma WeekPrefixStep(al: Almanac, d: LocalDate, month: int, w: int, day: LocalDate, kind: DayType)
    requires IsValid(d) && 1 <= w <= 7 && day == WithDayOfWeek(d, w)
    requires kind == (if day.month == month then ThisMonth else if day.month > month then NextMonth else LastMonth)
    ensures WeekPrefix(al, d, month, w) == WeekPrefix(al, d, month, w - 1) + [GetDate(al, day, kind)]
  {
    assert kind == TypeTag(day.month, month);
  }

  /** The Monday-to-Sunday week containing `d`, tagged against `month`. */
  function WeekDates(al: Almanac, d: LocalDate, month: int): (w: seq<Date>)
    requires IsValid(d)
  {
    WeekPrefix(al, d, month, 7)
  }

  /** `getWeekDates`: seven records, Monday first, built one weekday at a time. */
  method GetWeekDates(al: Almanac, year: int, month: int, day: int) returns (dates: seq<Date>)
    requires IsValid(LocalDate(year, month, day))
    ensures dates == WeekDates(al, LocalDate(year, month, day), month)
  {
    dates := [];
    var localDate := LocalDate(year, month, day);
    for i := 1 to 8
      invariant dates == WeekPrefix(al, localDate, month, i - 1)
    {
      var tempDate := WithDayOfWeek(localDate, i);
      var tempMonth := tempDate.month;
      var kind: DayType;
      if tempMonth == month {
        kind := ThisMonth;
      } else if tempMonth > month {
        kind := NextMonth;
      } else {
        kind := LastMonth;
      }
      WeekPrefixStep(al, localDate, month, i, tempDate, kind);
      dates := dates + [GetDate(al, tempDate, kind)];
    }
  }

  /**
   * The week of `d` holds seven consecutive days from its Monday, the i-th
   * (from 0) with ISO weekday i + 1, and `d` itself at position
   * DayOfWeek(d) - 1.
   */
  lemma WeekDatesShape(al: Almanac, d: LocalDate, month: int)
    requires IsValid(d)
    ensures var w := WeekDates(al, d, month);
      && |w| == 7
      && (forall i :: 0 <= i < 7 ==> w[i] == TaggedDate(al, AddDays(WeekStart(d), i), month))
      && (forall i :: 0 <= i < 7 ==> w[i].week == i + 1)
      && (forall i :: 0 <= i < 6 ==> DateOf(w[i + 1]) == NextDay(DateOf(w[i])))
      && DateOf(w[DayOfWeek(d) - 1]) == d
  {
    hide GetDate, FromDayNumber, AddDays, WithDayOfWeek, NextDay;
    var w := WeekDates(al, d, month);
    WeekPrefixCells(al, d, month, 7);
    forall i | 0 <= i < 7
      ensures WithDayOfWeek(d, i + 1) == AddDays(WeekStart(d), i)
    {
      DayNumberInjective(WithDayOfWeek(d, i + 1), AddDays(WeekStart(d), i));
    }
    forall i | 0 <= i < 6
      ensures DateOf(w[i + 1]) == NextDay(DateOf(w[i]))
    {
      DayNumberInjective(DateOf(w[i + 1]), NextDay(DateOf(w[i])));
    }
    DayNumberInjective(WithDayOfWeek(d, DayOfWeek(d)), d);
  }

  /**
   * The tagging compares month numbers only. In a week built for January
   * whose Monday falls in the previous December, that Monday is tagged
   * NextMonth; in a week built for December whose Sunday falls in the next
   * January, that Sunday is tagged LastMonth.
   */
  lemma YearBoundaryTags(al: Almanac, d: LocalDate)
    requires IsValid(d)
    ensures var w := WeekDates(al, d, d.month);
      d.month == 1 && d.day < DayOfWeek(d) ==>
        w[0].year == d.year - 1 && w[0].month == 12 && w[0].kind == NextMonth
    ensures var w := WeekDates(al, d, d.month);
      d.month == 12 && d.day + 7 - DayOfWeek(d) > 31 ==>
        w[6].year == d.year + 1 && w[6].month == 1 && w[6].kind == LastMonth
  {
    hide WeeksFrom, WeekDates, WeekPrefix, WeekCell, TaggedDate, GetDate, FromDayNumber, AddDays, WithDayOfWeek, NextWeekStart, NextDay;
    var w := WeekDates(al, d, d.month);
    WeekDatesShape(al, d, d.month);
    MonthNeighbourhood(d.year, d.month, DateOf(w[0]));
    MonthNeighbourhood(d.year, d.month, DateOf(w[6]));
  }

  /** The week of 2021-01-01 opens with 2020-12-28, tagged NextMonth. */
  lemma January2021FirstCell(al: Almanac, first: LocalDate)
    requires first.year == 2021 && first.month == 1 && first.day == 1
    ensures var w := WeekDates(al, first, first.month);
      w[0].year == 2020 && w[0].month == 12 && w[0].day == 28 && w[0].kind == NextMonth
  {
    hide WeeksFrom, WeekDates, WeekPrefix, WeekCell, TaggedDate, GetDate, FromDayNumber, AddDays, WithDayOfWeek, NextWeekStart, NextDay;
    var monday := LocalDate(2020, 12, 28);
    NewYear2021(first, monday);
    WeekStartIs(first, monday);
    AddDaysReaches(monday, 0, monday);
    WeekDatesShape(al, first, first.month);
  }

  // ---------------------------------------------------------------------
  // The weeks of a month
  // ---------------------------------------------------------------------

  /** The guard of the week loop, as written: month numbers compared with <=, years with ==. */
  predicate LoopGuard(s: LocalDate, year: int, month: int) {
    s.month <= month && s.year == year
  }

  /** `localDate.plusWeeks(1).withDayOfWeek(1)`: the Monday of the following week. */
  function NextWeekStart(s: LocalDate): (r: LocalDate)
    requires IsValid(s)
    ensures IsValid(r) && DayOfWeek(r) == 1
    ensures DayNumber(r) == DayNumber(WeekStart(s)) + 7
    ensures DayNumber(s) < DayNumber(r) <= DayNumber(s) + 7
  {
    var later := AddDays(s, 7);
    DayOfWeekPlusWeek(s, later);
    WithDayOfWeek(later, 1)
  }

  /** The loop's dates never leave the month or the week after its last day. */
  predicate InWalk(s: LocalDate, year: int, month: int)
    requires 1 <= month <= 12
  {
    IsValid(s)
    && DayNumber(FirstOfMonth(year, month)) <= DayNumber(s) <= DayNumber(LastOfMonth(year, month)) + 7
  }

  /** On the loop's dates the guard holds exactly up to the last day of the month. */
  lemma LoopGuardInWalk(s: LocalDate, year: int, month: int)
    requires 1 <= month <= 12 && InWalk(s, year, month)
    ensures LoopGuard(s, year, month) <==> DayNumber(s) <= DayNumber(LastOfMonth(year, month))
    ensures LoopGuard(s, year, month) ==> s.month == month
  {
    MonthNeighbourhood(year, month, s);
  }

  /** The weeks the loop emits from `s` on. */
  function WeeksFrom(al: Almanac, s: LocalDate, year: int, month: int): seq<seq<Date>>
    requires 1 <= month <= 12 && InWalk(s, year, month)
    decreases DayNumber(LastOfMonth(year, month)) + 1 - DayNumber(s)
  {
    if LoopGuard(s, year, month) then
      LoopGuardInWalk(s, year, month);
      [WeekDates(al, s, s.month)] + WeeksFrom(al, NextWeekStart(s), year, month)
    else
      []
  }

  /** One turn of the loop: emit the week of `s`, move on to the next Monday. */
  lemma WeeksFromStep(al: Almanac, s: LocalDate, year: int, month: int)
    requires 1 <= month <= 12 && InWalk(s, year, month) && LoopGuard(s, year, month)
    ensures InWalk(NextWeekStart(s), year, month)
    ensures DayNumber(s) <= DayNumber(LastOfMonth(year, month))
    ensures WeeksFrom(al, s, year, month) == [WeekDates(al, s, s.month)] + WeeksFrom(al, NextWeekStart(s), year, month)
  {
    LoopGuardInWalk(s, year, month);
  }

  /**
   * The walk from `s` emits weeks exactly while `s` has not passed the last
   * day of the month, and its weeks end on or after that day and start on
   * or before it.
   */
  lemma {:induction false} WeeksFromLength(al: Almanac, s: LocalDate, year: int, month: int)
    requires 1 <= month <= 12 && InWalk(s, year, month)
    ensures var ws := WeeksFrom(al, s, year, month);
      var last := DayNumber(LastOfMonth(year, month));
      && (|ws| > 0 <==> DayNumber(s) <= last)
      && (|ws| > 0 ==> DayNumber(WeekStart(s)) + 7 * (|ws| - 1) <= last <= DayNumber(WeekStart(s)) + 7 * |ws| - 1)
    decreases DayNumber(LastOfMonth(year, month)) + 1 - DayNumber(s)
  {
    LoopGuardInWalk(s, year, month);
    if LoopGuard(s, year, month) {
      WeeksFromStep(al, s, year, month);
      WeeksFromLength(al, NextWeekStart(s), year, month);
    }
  }

  /** The first week of a non-empty walk from `s` is the week of `s`, day i being i days from its Monday. */
  lemma WeeksFromHead(al: Almanac, s: LocalDate, year: int, month: int, i: int)
    requires 1 <= month <= 12 && InWalk(s, year, month)
    requires 0 < |WeeksFrom(al, s, year, month)| && 0 <= i < 7
    ensures |WeeksFrom(al, s, year, month)[0]| == 7
    ensures WeeksFrom(al, s, year, month)[0][i] == TaggedDate(al, AddDays(WeekStart(s), i), month)
  {
    LoopGuardInWalk(s, year, month);
    WeeksFromStep(al, s, year, month);
    WeekDatesShape(al, s, month);
  }

  /** Past the first week, the walk from `s` is the walk from the next Monday. */
  lemma WeeksFromTail(al: Almanac, s: LocalDate, year: int, month: int, j: int)
    requires 1 <= month <= 12 && InWalk(s, year, month)
    requires 0 < j < |WeeksFrom(al, s, year, month)|
    ensures DayNumber(s) <= DayNumber(LastOfMonth(year, month))
    ensures InWalk(NextWeekStart(s), year, month)
    ensures j - 1 < |WeeksFrom(al, NextWeekStart(s), year, month)|
    ensures WeeksFrom(al, s, year, month)[j] == WeeksFrom(al, NextWeekStart(s), year, month)[j - 1]
  {
    LoopGuardInWalk(s, year, month);
    WeeksFromStep(al, s, year, month);
  }

  /** Counting from the next Monday is counting from this week's Monday, one week further on. */
  lemma NextWeekShift(s: LocalDate, j: int, i: int)
    requires IsValid(s)
    ensures AddDays(WeekStart(NextWeekStart(s)), 7 * (j - 1) + i) == AddDays(WeekStart(s), 7 * j + i)
  {
    hide *;
    var next := NextWeekStart(s);
    assert DayNumber(WeekStart(next)) == DayNumber(WeekStart(s)) + 7;
    AddDaysShift(WeekStart(next), 7 * (j - 1) + i, WeekStart(s), 7 * j + i);
  }

  /** Cell i of week j of the walk from `s` is day 7 * j + i counted from the Monday of `s`. */
  lemma {:induction false} WeeksFromCell(al: Almanac, s: LocalDate, year: int, month: int, j: int, i: int)
    requires 1 <= month <= 12 && InWalk(s, year, month)
    requires 0 <= j < |WeeksFrom(al, s, year, month)| && 0 <= i < 7
    ensures |WeeksFrom(al, s, year, month)[j]| == 7
    ensures WeeksFrom(al, s, year, month)[j][i] == TaggedDate(al, AddDays(WeekStart(s), 7 * j + i), month)
    decreases DayNumber(LastOfMonth(year, month)) + 1 - DayNumber(s)
  {
    hide WeeksFrom, WeekDates, WeekPrefix, TaggedDate, GetDate, AddDays, WeekStart, NextWeekStart, DayNumber;
    if j == 0 {
      WeeksFromHead(al, s, year, month, i);
    } else {
      var next := NextWeekStart(s);
      WeeksFromTail(al, s, year, month, j);
      WeeksFromCell(al, next, year, month, j - 1, i);
      NextWeekShift(s, j, i);
    }
  }

  /** Every week of the walk from `s` has seven cells, cell i of week j being day 7 * j + i from the Monday of `s`. */
  lemma WeeksFromCells(al: Almanac, s: LocalDate, year: int, month: int)
    requires 1 <= month <= 12 && InWalk(s, year, month)
    ensures var ws := WeeksFrom(al, s, year, month);
      && (forall j :: 0 <= j < |ws| ==> |ws[j]| == 7)
      && (forall j, i :: 0 <= j < |ws| && 0 <= i < 7 ==>
            ws[j][i] == TaggedDate(al, AddDays(WeekStart(s), 7 * j + i), month))
  {
    hide WeeksFrom, WeekDates, WeekPrefix, WeekCell, TaggedDate, GetDate, FromDayNumber, AddDays, WithDayOfWeek, NextWeekStart, NextDay;
    var ws := WeeksFrom(al, s, year, month);
    forall j | 0 <= j < |ws|
      ensures |ws[j]| == 7
    {
      WeeksFromCell(al, s, year, month, j, 0);
    }
    forall j, i | 0 <= j < |ws| && 0 <= i < 7
      ensures ws[j][i] == TaggedDate(al, AddDays(WeekStart(s), 7 * j + i), month)
    {
      WeeksFromCell(al, s, year, month, j, i);
    }
  }

  /** The Monday on or before the 1st of the month: the first day of the grid. */
  function GridStart(year: int, month: int): (d: LocalDate)
    requires 1 <= month <= 12
    ensures IsValid(d) && DayOfWeek(d) == 1
  {
    WeekStart(FirstOfMonth(year, month))
  }

  /** `getMonthOfWeekDate`: the weeks of a month, one week per iteration. */
  method GetMonthOfWeekDate(al: Almanac, year: int, month: int) returns (weeks: seq<seq<Date>>)
    requires 1 <= month <= 12
    ensures weeks == WeeksFrom(al, FirstOfMonth(year, month), year, month)
  {
    var localDate := LocalDate(year, month, 1);
    weeks := [];
    assert weeks + WeeksFrom(al, FirstOfMonth(year, month), year, month) == WeeksFrom(al, FirstOfMonth(year, month), year, month);
    while localDate.month <= month && localDate.year == year
      invariant InWalk(localDate, year, month)
      invariant weeks + WeeksFrom(al, localDate, year, month) == WeeksFrom(al, FirstOfMonth(year, month), year, month)
      decreases DayNumber(LastOfMonth(year, month)) + 1 - DayNumber(localDate)
    {
      WeeksFromStep(al, localDate, year, month);
      var week := GetWeekDates(al, localDate.year, localDate.month, localDate.day);
      assert week == WeekDates(al, localDate, localDate.month);
      AppendAssoc(weeks, [week], WeeksFrom(al, NextWeekStart(localDate), year, month));
      weeks := weeks + [week];
      localDate := NextWeekStart(localDate);
    }
  }

  /** The concatenation of a sequence of weeks. */
  function Flatten(ws: seq<seq<Date>>): seq<Date> {
    if ws == [] then [] else ws[0] + Flatten(ws[1..])
  }

  lemma AppendAssoc<T>(a: seq<T>, b: seq<T>, c: seq<T>)
    ensures (a + b) + c == a + (b + c)
  {
  }

  lemma ConcatIndex<T>(a: seq<T>, b: seq<T>, k: int)
    requires |a| <= k < |a| + |b|
    ensures (a + b)[k] == b[k - |a|]
  {
  }

  lemma FlattenCons(w: seq<Date>, ws: seq<seq<Date>>)
    ensures Flatten([w] + ws) == w + Flatten(ws)
  {
    assert ([w] + ws)[1..] == ws;
  }

  /** `getMonthOfWeekDate2`: the same walk, appending every week to one list. */
  method GetMonthOfWeekDate2(al: Almanac, year: int, month: int) returns (dates: seq<Date>)
    requires 1 <= month <= 12
    ensures dates == Flatten(WeeksFrom(al, FirstOfMonth(year, month), year, month))
  {
    var localDate := LocalDate(year, month, 1);
    dates := [];
    assert dates + Flatten(WeeksFrom(al, FirstOfMonth(year, month), year, month)) == Flatten(WeeksFrom(al, FirstOfMonth(year, month), year, month));
    while localDate.month <= month && localDate.year == year
      invariant InWalk(localDate, year, month)
      invariant dates + Flatten(WeeksFrom(al, localDate, year, month)) == Flatten(WeeksFrom(al, FirstOfMonth(year, month), year, month))
      decreases DayNumber(LastOfMonth(year, month)) + 1 - DayNumber(localDate)
    {
      WeeksFromStep(al, localDate, year, month);
      var week := GetWeekDates(al, localDate.year, localDate.month, localDate.day);
      FlattenCons(week, WeeksFrom(al, NextWeekStart(localDate), year, month));
      AppendAssoc(dates, week, Flatten(WeeksFrom(al, NextWeekStart(localDate), year, month)));
      dates := dates + week;
      localDate := NextWeekStart(localDate);
    }
  }

  /**
   * The size of the month grid: four to six weeks from the Monday on or
   * before the 1st, the first week holding the 1st and the last week the
   * last day of the month.
   */
  lemma MonthGridSize(al: Almanac, year: int, month: int, ws: seq<seq<Date>>)
    requires 1 <= month <= 12 && ws == WeeksFrom(al, FirstOfMonth(year, month), year, month)
    ensures var g := GridStart(year, month);
      && 4 <= |ws| <= 6
      && DayNumber(g) <= DayNumber(FirstOfMonth(year, month)) < DayNumber(g) + 7
      && DayNumber(g) + 7 * (|ws| - 1) <= DayNumber(LastOfMonth(year, month)) < DayNumber(g) + 7 * |ws|
  {
    hide WeeksFrom, WeekDates, WeekPrefix, WeekCell, TaggedDate, GetDate, FromDayNumber, AddDays, WithDayOfWeek, NextWeekStart, NextDay;
    WeeksFromLength(al, FirstOfMonth(year, month), year, month);
  }

  /** The cells of the month grid: seven per week, cell i of week j being day 7 * j + i of the grid. */
  lemma MonthGrid(al: Almanac, year: int, month: int, ws: seq<seq<Date>>)
    requires 1 <= month <= 12 && ws == WeeksFrom(al, FirstOfMonth(year, month), year, month)
    ensures forall j :: 0 <= j < |ws| ==> |ws[j]| == 7
    ensures forall j, i :: 0 <= j < |ws| && 0 <= i < 7 ==>
      ws[j][i] == TaggedDate(al, AddDays(GridStart(year, month), 7 * j + i), month)
  {
    hide WeeksFrom, WeekDates, WeekPrefix, WeekCell, TaggedDate, GetDate, FromDayNumber, AddDays, WithDayOfWeek, NextWeekStart, NextDay;
    forall j | 0 <= j < |ws|
      ensures |ws[j]| == 7
    {
      MonthGridCell(al, year, month, ws, j, 0);
    }
    forall j, i | 0 <= j < |ws| && 0 <= i < 7
      ensures ws[j][i] == TaggedDate(al, AddDays(GridStart(year, month), 7 * j + i), month)
    {
      MonthGridCell(al, year, month, ws, j, i);
    }
  }

  /** One cell of the month grid. */
  lemma MonthGridCell(al: Almanac, year: int, month: int, ws: seq<seq<Date>>, j: int, i: int)
    requires 1 <= month <= 12 && ws == WeeksFrom(al, FirstOfMonth(year, month), year, month)
    requires 0 <= j < |ws| && 0 <= i < 7
    ensures |ws[j]| == 7 && ws[j][i] == TaggedDate(al, AddDays(GridStart(year, month), 7 * j + i), month)
  {
    hide WeeksFrom, WeekDates, WeekPrefix, WeekCell, TaggedDate, GetDate, FromDayNumber, AddDays, WithDayOfWeek, NextWeekStart, NextDay;
    WeeksFromCell(al, FirstOfMonth(year, month), year, month, j, i);
  }

  /** The first week shows the 1st of the month at the cell of its weekday. */
  lemma MonthGridFirst(al: Almanac, year: int, month: int, ws: seq<seq<Date>>)
    requires 1 <= month <= 12 && ws == WeeksFrom(al, FirstOfMonth(year, month), year, month)
    ensures |ws| > 0 && |ws[0]| == 7
    ensures DateOf(ws[0][DayOfWeek(FirstOfMonth(year, month)) - 1]) == FirstOfMonth(year, month)
  {
    hide WeeksFrom, WeekDates, WeekPrefix, WeekCell, TaggedDate, GetDate, FromDayNumber, AddDays, WithDayOfWeek, NextWeekStart, NextDay;
    var g, first := GridStart(year, month), FirstOfMonth(year, month);
    MonthGridSize(al, year, month, ws);
    DayOfWeekFromMonday(g, first, 0, DayNumber(first) - DayNumber(g));
    MonthGridCell(al, year, month, ws, 0, DayOfWeek(first) - 1);
    DayNumberInjective(AddDays(g, DayOfWeek(first) - 1), first);
  }

  /** The last week shows the last day of the month at the cell of its weekday. */
  lemma MonthGridLast(al: Almanac, year: int, month: int, ws: seq<seq<Date>>)
    requires 1 <= month <= 12 && ws == WeeksFrom(al, FirstOfMonth(year, month), year, month)
    ensures |ws| > 0 && |ws[|ws| - 1]| == 7
    ensures DateOf(ws[|ws| - 1][DayOfWeek(LastOfMonth(year, month)) - 1]) == LastOfMonth(year, month)
  {
    hide WeeksFrom, WeekDates, WeekPrefix, WeekCell, TaggedDate, GetDate, FromDayNumber, AddDays, WithDayOfWeek, NextWeekStart, NextDay;
    var g, last := GridStart(year, month), LastOfMonth(year, month);
    var n := |ws| - 1;
    MonthGridSize(al, year, month, ws);
    DayOfWeekFromMonday(g, last, n, DayNumber(last) - DayNumber(g) - 7 * n);
    var i := DayOfWeek(last) - 1;
    MonthGridCell(al, year, month, ws, n, i);
    var c := AddDays(g, 7 * n + i);
    assert ws[n][i] == TaggedDate(al, c, month);
    DayNumberInjective(c, last);
  }

  /** Consecutive weeks are contiguous: each week starts the day after the previous one ends. */
  lemma MonthGridContiguous(al: Almanac, year: int, month: int, ws: seq<seq<Date>>)
    requires 1 <= month <= 12 && ws == WeeksFrom(al, FirstOfMonth(year, month), year, month)
    ensures forall j :: 0 <= j < |ws| ==> |ws[j]| == 7 && IsValid(DateOf(ws[j][0])) && IsValid(DateOf(ws[j][6]))
    ensures forall j, k :: 0 <= j && k == j + 1 && k < |ws| ==>
      DateOf(ws[k][0]) == NextDay(DateOf(ws[j][6]))
  {
    hide WeeksFrom, WeekDates, WeekPrefix, WeekCell, TaggedDate, GetDate, FromDayNumber, AddDays, WithDayOfWeek, NextWeekStart, NextDay;
    forall j | 0 <= j < |ws|
      ensures |ws[j]| == 7 && IsValid(DateOf(ws[j][0])) && IsValid(DateOf(ws[j][6]))
    {
      MonthGridCell(al, year, month, ws, j, 0);
      MonthGridCell(al, year, month, ws, j, 6);
    }
    forall j, k | 0 <= j && k == j + 1 && k < |ws|
      ensures DateOf(ws[k][0]) == NextDay(DateOf(ws[j][6]))
    {
      MonthGridCell(al, year, month, ws, j, 6);
      MonthGridCell(al, year, month, ws, k, 0);
      DayNumberInjective(DateOf(ws[k][0]), NextDay(DateOf(ws[j][6])));
    }
  }

  /**
   * Where grid cell k (counted from 0 at the Monday on or before the 1st) of
   * month (year, month) lies and how it is tagged, `offset` being the cell of
   * the 1st. The days of the month fill cells offset .. offset + length - 1
   * in order, and these are the only cells tagged ThisMonth. Earlier cells lie
   * in the previous month and are tagged NextMonth in a January grid,
   * LastMonth otherwise; later cells lie in the next month and are tagged
   * LastMonth in a December grid, NextMonth otherwise.
   */
  predicate CellPlacement(year: int, month: int, offset: int, c: Date, k: int)
    requires 1 <= month <= 12
  {
    && (c.kind == ThisMonth <==> offset <= k < offset + DaysInMonth(year, month))
    && (c.kind == ThisMonth ==> DateOf(c) == LocalDate(year, month, k - offset + 1))
    && (k < offset ==>
          c.month == MonthBefore(year, month).month
          && c.kind == (if month == 1 then NextMonth else LastMonth))
    && (offset + DaysInMonth(year, month) <= k ==>
          c.month == MonthAfter(year, month).month
          && c.kind == (if month == 12 then LastMonth else NextMonth))
  }

  /** Every cell of the month grid is placed and tagged as CellPlacement says. */
  lemma MonthGridTags(al: Almanac, year: int, month: int, ws: seq<seq<Date>>)
    requires 1 <= month <= 12 && ws == WeeksFrom(al, FirstOfMonth(year, month), year, month)
    ensures forall j :: 0 <= j < |ws| ==> |ws[j]| == 7
    ensures forall j, i :: 0 <= j < |ws| && 0 <= i < 7 ==>
      CellPlacement(year, month, DayOfWeek(FirstOfMonth(year, month)) - 1, ws[j][i], 7 * j + i)
  {
    hide WeeksFrom, WeekDates, WeekPrefix, WeekCell, TaggedDate, GetDate, FromDayNumber, AddDays, WithDayOfWeek, NextWeekStart, NextDay;
    forall j | 0 <= j < |ws|
      ensures |ws[j]| == 7
    {
      MonthGridCell(al, year, month, ws, j, 0);
    }
    forall j, i | 0 <= j < |ws| && 0 <= i < 7
      ensures CellPlacement(year, month, DayOfWeek(FirstOfMonth(year, month)) - 1, ws[j][i], 7 * j + i)
    {
      MonthGridCellPlacement(al, year, month, ws, j, i);
    }
  }

  lemma MonthGridCellPlacement(al: Almanac, year: int, month: int, ws: seq<seq<Date>>, j: int, i: int)
    requires 1 <= month <= 12 && ws == WeeksFrom(al, FirstOfMonth(year, month), year, month)
    requires 0 <= j < |ws| && 0 <= i < 7
    ensures |ws[j]| == 7 && CellPlacement(year, month, DayOfWeek(FirstOfMonth(year, month)) - 1, ws[j][i], 7 * j + i)
  {
    hide WeeksFrom, WeekDates, WeekPrefix, WeekCell, TaggedDate, GetDate, FromDayNumber, AddDays, WithDayOfWeek, NextWeekStart, NextDay;
    var g, first := GridStart(year, month), FirstOfMonth(year, month);
    MonthGridSize(al, year, month, ws);
    DayOfWeekFromMonday(g, first, 0, DayNumber(first) - DayNumber(g));
    MonthGridCell(al, year, month, ws, j, i);
    MonthNeighbourhood(year, month, DateOf(ws[j][i]));
  }

  /** Day k of the concatenated walk from `s` is day k counted from the Monday of `s`. */
  lemma {:induction false} WeeksFromFlat(al: Almanac, s: LocalDate, year: int, month: int)
    requires 1 <= month <= 12 && InWalk(s, year, month)
    ensures var ws := WeeksFrom(al, s, year, month);
      && |Flatten(ws)| == 7 * |ws|
      && forall k :: 0 <= k < |Flatten(ws)| ==> Flatten(ws)[k] == TaggedDate(al, AddDays(WeekStart(s), k), month)
    decreases DayNumber(LastOfMonth(year, month)) + 1 - DayNumber(s)
  {
    LoopGuardInWalk(s, year, month);
    if LoopGuard(s, year, month) {
      WeeksFromStep(al, s, year, month);
      var next := NextWeekStart(s);
      WeeksFromFlat(al, next, year, month);
      WeekDatesShape(al, s, month);
      var w, rest := WeekDates(al, s, month), WeeksFrom(al, next, year, month);
      FlattenCons(w, rest);
      var ds := Flatten(WeeksFrom(al, s, year, month));
      assert ds == w + Flatten(rest);
      assert |w| == 7 && |ds| == 7 + |Flatten(rest)|;
      forall k | 0 <= k < |ds|
        ensures ds[k] == TaggedDate(al, AddDays(WeekStart(s), k), month)
      {
        if k >= 7 {
          ConcatIndex(w, Flatten(rest), k);
          DayNumberInjective(AddDays(WeekStart(next), k - 7), AddDays(WeekStart(s), k));
        }
      }
    }
  }

  /** The flat list of a month is 7 times the number of weeks long, day k being day k of the grid. */
  lemma MonthListCells(al: Almanac, year: int, month: int, ws: seq<seq<Date>>)
    requires 1 <= month <= 12 && ws == WeeksFrom(al, FirstOfMonth(year, month), year, month)
    ensures |Flatten(ws)| == 7 * |ws| && 28 <= |Flatten(ws)| <= 42
    ensures forall k :: 0 <= k < |Flatten(ws)| ==>
      Flatten(ws)[k] == TaggedDate(al, AddDays(GridStart(year, month), k), month)
  {
    hide WeeksFrom, WeekDates, WeekPrefix, WeekCell, TaggedDate, GetDate, FromDayNumber, AddDays, WithDayOfWeek, NextWeekStart, NextDay;
    MonthGridSize(al, year, month, ws);
    WeeksFromFlat(al, FirstOfMonth(year, month), year, month);
  }

  // ---------------------------------------------------------------------
  // The Calendar-style weekday
  // ---------------------------------------------------------------------

  /**
   * `getDayForWeek`: the weekday of a date as `java.util.Calendar` numbers
   * it, Sunday = 1 ... Saturday = 7. Day 0 of the numbering is a Monday,
   * which gives (0 + 1) % 7 + 1 = 2 = `Calendar.MONDAY`.
   */
  function DayForWeek(y: int, m: int, d: int): (r: int)
    requires IsValid(LocalDate(y, m, d))
    ensures 1 <= r <= 7
    ensures r == if DayOfWeek(LocalDate(y, m, d)) == 7 then 1 else DayOfWeek(LocalDate(y, m, d)) + 1
  {
    ModSevenSucc(DayNumber(LocalDate(y, m, d)));
    (DayNumber(LocalDate(y, m, d)) + 1) % 7 + 1
  }

  /** A Sunday is day 1 in this numbering, while the date records store it as 7. */
  lemma DayForWeekSunday(al: Almanac, d: LocalDate)
    requires IsValid(d)
    ensures DayForWeek(d.year, d.month, d.day) == 1 <==> GetDate(al, d, ThisMonth).week == 7
  {
  }

  // ---------------------------------------------------------------------
  // Pager positions and months
  // ---------------------------------------------------------------------

  /**
   * `getMonthPosition`: how many months (year2, month2) lies after
   * (year1, month1); negative when it lies before.
   */
  function MonthPosition(year1: int, month1: int, year2: int, month2: int): (r: int)
    ensures 1 <= month1 <= 12 && 1 <= month2 <= 12 ==>
      (r == 0 <==> year1 == year2 && month1 == month2)
    ensures 1 <= month1 <= 12 && 1 <= month2 <= 12 ==>
      (r > 0 <==> year1 < year2 || (year1 == year2 && month1 < month2))
  {
    (year2 - year1) * 12 + (month2 - month1)
  }

  /**
   * `positionToDate`: the (year, month) that lies `position` months after
   * (startY, startM). The source's `/` and `%` truncate toward zero, which
   * agrees with Dafny's for the non-negative position required here.
   */
  function PositionToDate(position: int, startY: int, startM: int): (r: YearMonth)
    requires position >= 0
    ensures 1 <= startM <= 12 ==> 1 <= r.month <= 12
    ensures 1 <= startM <= 12 ==> MonthPosition(startY, startM, r.year, r.month) == position
  {
    var year := position / 12 + startY;
    var month := position % 12 + startM;
    if month > 12 then YearMonth(year + 1, month % 12) else YearMonth(year, month)
  }

  /** Every month at or after the start is reached by exactly its own position. */
  lemma PositionRoundTrip(startY: int, startM: int, year: int, month: int)
    requires 1 <= startM <= 12 && 1 <= month <= 12
    requires MonthPosition(startY, startM, year, month) >= 0
    ensures PositionToDate(MonthPosition(startY, startM, year, month), startY, startM) == YearMonth(year, month)
  {
    var p := MonthPosition(startY, startM, year, month);
    var r := PositionToDate(p, startY, startM);
    assert MonthPosition(startY, startM, r.year, r.month) == p;
    assert 12 * r.year + r.month == 12 * year + month;
  }

  /** The position of a month relative to itself is 0, and swapping the months negates it. */
  lemma MonthPositionAntisymmetric(year1: int, month1: int, year2: int, month2: int)
    ensures MonthPosition(year1, month1, year1, month1) == 0
    ensures MonthPosition(year2, month2, year1, month1) == -MonthPosition(year1, month1, year2, month2)
  {
  }

  /** Positions add up along a chain of three months. */
  lemma MonthPositionAdditive(y1: int, m1: int, y2: int, m2: int, y3: int, m3: int)
    ensures MonthPosition(y1, m1, y2, m2) + MonthPosition(y2, m2, y3, m3) == MonthPosition(y1, m1, y3, m3)
  {
  }

  /** The calendar month after (year, month) is one position on. */
  lemma MonthPositionNext(year: int, month: int)
    requires 1 <= month <= 12
    ensures var n := MonthAfter(year, month); MonthPosition(year, month, n.year, n.month) == 1
  {
  }

  /** Position + 1 is the calendar month after position. */
  lemma PositionToDateStep(position: int, startY: int, startM: int)
    requires position >= 0 && 1 <= startM <= 12
    ensures var r := PositionToDate(position, startY, startM);
      PositionToDate(position + 1, startY, startM) == MonthAfter(r.year, r.month)
  {
    var r, s := PositionToDate(position, startY, startM), PositionToDate(position + 1, startY, startM);
    var n := MonthAfter(r.year, r.month);
    assert 12 * s.year + s.month == 12 * n.year + n.month;
  }
}
