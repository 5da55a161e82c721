/**
 * One row of the calendar: seven day cells, at most one of them selected.
 *
 * The view's drawing, measuring and touch handling are platform code; what
 * is kept here is the selection state the view updates in place and the
 * per-cell choices its drawing makes: the colour of the day number, the
 * label under it, and the size it asks for.
 */
module WeekView {
  import opened CalendarUtil

  /** The number of cells in a week row. */
  const WeekSize := 7

  datatype Option<T> = None | Some(value: T)

  /** Two day records are equal when they name the same calendar day. */
  predicate SameDay(a: Date, b: Date) {
    a.year == b.year && a.month == b.month && a.day == b.day
  }

  /** `List.indexOf`: the first position holding a record equal to `target`, or -1. */
  function IndexOf(dates: seq<Date>, target: Date): (r: int)
    ensures -1 <= r < |dates|
    ensures 0 <= r ==> SameDay(dates[r], target)
    ensures forall k :: 0 <= k < |dates| && (r == -1 || k < r) ==> !SameDay(dates[k], target)
  {
    if |dates| == 0 then -1
    else if SameDay(dates[0], target) then 0
    else
      var i := IndexOf(dates[1..], target);
      if i == -1 then -1 else i + 1
  }

  class WeekView {
    /** The records shown, Monday first. */
    var dates: seq<Date>
    /** The selected cell, or -1 when none is. */
    var selected: int
    /** Which week of its month this row is. */
    var weekOrder: int

    /** The selection is -1 or a position of the list. */
    ghost predicate Valid()
      reads this
    {
      -1 <= selected < |dates|
    }

    /** A row over `dates`, the `order`-th of its month, with nothing selected. */
    constructor(dates: seq<Date>, order: int)
      ensures this.dates == dates && weekOrder == order && selected == -1
      ensures Valid()
    {
      this.dates := dates;
      weekOrder := order;
      selected := -1;
    }

    /** `setDateList`: replaces the records; the selection is left as it was. */
    method SetDateList(dateList: seq<Date>)
      modifies this`dates
      ensures dates == dateList
    {
      dates := dateList;
    }

    /** `selectedDate`: selects a position of the list; any other position is ignored. */
    method SelectedDate(position: int)
      modifies this`selected
      ensures selected == if 0 <= position < |dates| then position else old(selected)
      ensures old(Valid()) ==> Valid()
    {
      if position >= 0 && position < |dates| {
        selected := position;
      }
    }

    /** `cancelSelected`: clears a selection; a selection already at -1 (or below) is kept. */
    method CancelSelected()
      modifies this`selected
      ensures selected == if old(selected) > -1 then -1 else old(selected)
      ensures selected <= -1
      ensures old(Valid()) ==> Valid() && selected == -1
    {
      if selected > -1 {
        selected := -1;
      }
    }

    /**
     * `selectDate`: selects the first cell showing the same day as `date`,
     * and clears the selection when no cell does.
     */
    method SelectDate(date: Date)
      modifies this`selected
      ensures var p := IndexOf(dates, date);
        selected == if p >= 0 then p else if old(selected) > -1 then -1 else old(selected)
      ensures old(Valid()) ==> Valid() && selected == IndexOf(dates, date)
    {
      var position := IndexOf(dates, date);
      if position >= 0 {
        SelectedDate(position);
      } else {
        CancelSelected();
      }
    }

    /** The guard under which the selected cell's background is drawn. */
    predicate DrawsSelectedBackground()
      reads this
    {
      0 <= selected < WeekSize
    }

    /**
     * `onDraw`, reduced to its decisions: whether the selected background
     * is drawn, the colour of each day number, and the label drawn under
     * each cell (None where no label is drawn).
     */
    method Draw(showLunar: bool, showHoliday: bool)
      returns (background: bool, colours: seq<TextColour>, labels: seq<Option<string>>)
      ensures background <==> DrawsSelectedBackground()
      ensures |colours| == |dates|
      ensures forall i :: 0 <= i < |dates| ==> colours[i] == DayNumberColour(i, selected, dates[i].kind)
      ensures |labels| == |dates|
      ensures forall i :: 0 <= i < |dates| ==> labels[i] == CellLabel(i, selected, showLunar, showHoliday, dates[i])
    {
      background := selected >= 0 && selected < WeekSize;
      colours := [];
      for i := 0 to |dates|
        invariant |colours| == i
        invariant forall k :: 0 <= k < i ==> colours[k] == DayNumberColour(k, selected, dates[k].kind)
      {
        var colour;
        if i == selected {
          colour := ClickColour;
        } else if dates[i].kind == ThisMonth {
          colour := TopColour;
        } else {
          colour := BottomColour;
        }
        colours := colours + [colour];
      }
      labels := [];
      for i := 0 to |dates|
        invariant |labels| == i
        invariant forall k :: 0 <= k < i ==> labels[k] == CellLabel(k, selected, showLunar, showHoliday, dates[k])
      {
        var text: Option<string> := None;
        if (showLunar || showHoliday) && i != selected {
          var date := dates[i];
          if showLunar {
            text := Some(date.lunarDay);
          }
          if showHoliday {
            if date.lunarHoliday != "" {
              text := Some(date.lunarHoliday);
            }
            if date.holiday != "" {
              text := Some(date.holiday);
            }
          }
        }
        labels := labels + [text];
      }
    }
  }

  /** On a valid row of at most seven cells the background is drawn exactly when a cell is selected. */
  lemma SelectedBackgroundGuard(v: WeekView)
    requires v.Valid() && |v.dates| <= WeekSize
    ensures v.DrawsSelectedBackground() <==> v.selected != -1
  {
  }

  /** Cancelling twice leaves the selection where cancelling once does. */
  method CancelSelectedTwice(v: WeekView)
    modifies v
    ensures v.selected == if old(v.selected) > -1 then -1 else old(v.selected)
    ensures v.dates == old(v.dates) && v.weekOrder == old(v.weekOrder)
  {
    v.CancelSelected();
    ghost var once := v.selected;
    v.CancelSelected();
    assert v.selected == once;
  }

  /**
   * Replacing the records with a shorter list keeps a selection that no
   * longer names a cell: the row is left invalid, and its background is
   * still drawn at the old position.
   */
  method StaleSelection(week: seq<Date>, shorter: seq<Date>) returns (v: WeekView)
    requires |week| == WeekSize && |shorter| == 3
    ensures v.dates == shorter && v.selected == 5
    ensures !v.Valid() && v.DrawsSelectedBackground()
  {
    v := new WeekView(week, 0);
    v.SelectedDate(5);
    v.SetDateList(shorter);
  }

  /** The colours a day number is drawn in. */
  datatype TextColour = ClickColour | TopColour | BottomColour

  /**
   * The colour of the day number in cell `index`: the click colour for the
   * selected cell, the top colour for a day of the row's month, the bottom
   * colour for the others.
   */
  function DayNumberColour(index: int, selected: int, kind: DayType): (c: TextColour)
    ensures c == ClickColour <==> index == selected
    ensures c == TopColour <==> index != selected && kind == ThisMonth
    ensures c == BottomColour <==> index != selected && kind != ThisMonth
  {
    if index == selected then ClickColour
    else if kind == ThisMonth then TopColour
    else BottomColour
  }

  /**
   * The label under the day number in cell `index`, overwritten in the
   * source's order: the lunar day when lunar labels are shown, then the
   * lunar holiday and then the solar holiday when holidays are shown and
   * the holiday is not empty. The selected cell gets no label.
   */
  function CellLabel(index: int, selected: int, showLunar: bool, showHoliday: bool, date: Date): (r: Option<string>)
    ensures index == selected || (!showLunar && !showHoliday) ==> r == None
    ensures index != selected && showHoliday && date.holiday != "" ==> r == Some(date.holiday)
    ensures index != selected && showHoliday && date.holiday == "" && date.lunarHoliday != "" ==>
      r == Some(date.lunarHoliday)
    ensures index != selected && !(showHoliday && (date.holiday != "" || date.lunarHoliday != "")) ==>
      r == if showLunar then Some(date.lunarDay) else None
    ensures !showHoliday ==> r == None || r == Some(date.lunarDay)
  {
    if !(showLunar || showHoliday) || index == selected then None
    else
      var text := if showLunar then Some(date.lunarDay) else None;
      var text' := if showHoliday && date.lunarHoliday != "" then Some(date.lunarHoliday) else text;
      if showHoliday && date.holiday != "" then Some(date.holiday) else text'
  }

  /** The measure-spec modes of the platform's layout pass. */
  datatype MeasureMode = Unspecified | Exactly | AtMost

  /** `measureSize`: the given size in EXACTLY mode, otherwise the smaller of it and the wanted size. */
  function MeasureSize(specMode: MeasureMode, specSize: int, size: int): (r: int)
    ensures specMode == Exactly ==> r == specSize
    ensures specMode != Exactly ==> r <= specSize && r <= size && (r == specSize || r == size)
  {
    if specMode == Exactly then specSize
    else if specSize <= size then specSize else size
  }
}
