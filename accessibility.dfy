/**
  Keyboard navigation of the year grid (hooks/useAccessibility.ts,
  `useCalendarKeyboard` and `formatDateForSelector`). The focused date is
  state the handler replaces; the DOM test "is the event target inside a day
  cell", the callbacks and the deferred focus call become the handler's
  inputs and outputs.
*/
module Accessibility {
  import opened Wrappers
  import opened Calendar
  import opened JsString
  import opened DateUtils

  /** The value of `e.key` for the keys the handler tells apart; every other
      key name is carried as `Other`. */
  datatype Key =
    | ArrowLeft | ArrowRight | ArrowUp | ArrowDown
    | PageUp | PageDown | Home | End
    | Enter | Space
    | Other(name: string)

  /** The key named `name` (`' '` is the space bar). */
  function KeyOf(name: string): (k: Key)
    ensures k.Other? <==> name !in {"ArrowLeft", "ArrowRight", "ArrowUp", "ArrowDown", "PageUp", "PageDown", "Home", "End", "Enter", " "}
    ensures k.Other? ==> k.name == name
  {
    match name
    case "ArrowLeft" => ArrowLeft
    case "ArrowRight" => ArrowRight
    case "ArrowUp" => ArrowUp
    case "ArrowDown" => ArrowDown
    case "PageUp" => PageUp
    case "PageDown" => PageDown
    case "Home" => Home
    case "End" => End
    case "Enter" => Enter
    case " " => Space
    case _ => Other(name)
  }

  /** The date a navigation key moves the focus to; None for every key that does not navigate. */
  function NextFocus(current: Date, key: Key): (next: Option<Date>)
    requires ValidDate(current)
    ensures next.Some? <==> !(key.Enter? || key.Space? || key.Other?)
    ensures next.Some? ==> ValidDate(next.value)
  {
    match key
    case ArrowLeft => Some(SetDate(current, current.day - 1))
    case ArrowRight => Some(SetDate(current, current.day + 1))
    case ArrowUp => Some(SetDate(current, current.day - 7))
    case ArrowDown => Some(SetDate(current, current.day + 7))
    case PageUp => Some(SetMonth(current, current.month - 1 - 1))
    case PageDown => Some(SetMonth(current, current.month - 1 + 1))
    case Home => Some(NewDate(current.year, current.month - 1, 1))
    case End => Some(NewDate(current.year, current.month - 1 + 1, 0))
    case _ => None
  }

  /** `setDate(getDate() + k)` moves the date by `k` days, across month and year ends. */
  lemma SetDateMovesByDays(current: Date, k: int)
    requires ValidDate(current)
    ensures SetDate(current, current.day + k) == AddDays(current, k)
  {
    AddDaysFromDayNumbers(current, SetDate(current, current.day + k), k);
  }

  /** The arrow keys move by one day sideways and by one week up and down,
      across month and year ends (by SetDateMovesByDays, each is the date that
      many days away); up and down keep the weekday column. */
  lemma ArrowsMoveByDays(current: Date)
    requires ValidDate(current)
    ensures ToDays(NextFocus(current, ArrowLeft).value) == ToDays(current) - 1
    ensures ToDays(NextFocus(current, ArrowRight).value) == ToDays(current) + 1
    ensures ToDays(NextFocus(current, ArrowUp).value) == ToDays(current) - 7
    ensures ToDays(NextFocus(current, ArrowDown).value) == ToDays(current) + 7
    ensures Weekday(NextFocus(current, ArrowUp).value) == Weekday(current)
    ensures Weekday(NextFocus(current, ArrowDown).value) == Weekday(current)
  {
    WeekdayAfterWeek(NextFocus(current, ArrowUp).value, current);
    WeekdayAfterWeek(current, NextFocus(current, ArrowDown).value);
  }

  /** `setMonth(getMonth() + delta)`, one month forward or back, lands `day - 1`
      days after the first of the target month (ty, tm). */
  lemma SetMonthFromFirst(d: Date, m0: int, delta: int, ty: int, tm: int)
    requires ValidDate(d) && (delta == 1 || delta == -1) && m0 == d.month - 1 + delta
    requires (ty, tm) == ShiftMonth(d.year, d.month, delta)
    ensures ValidDate(Date(ty, tm, 1))
    ensures ToDays(SetMonth(d, m0)) == ToDays(Date(ty, tm, 1)) + d.day - 1
  {
    assert (ty, tm) == (d.year + m0 / 12, m0 % 12 + 1);
    assert Date(ty, tm, 1) == Date(d.year + m0 / 12, m0 % 12 + 1, 1);
  }

  /** One month forward or back keeps the day of the month when the target month has it. */
  lemma SetMonthKeepsDay(d: Date, m0: int, delta: int, ty: int, tm: int)
    requires ValidDate(d) && (delta == 1 || delta == -1) && m0 == d.month - 1 + delta
    requires (ty, tm) == ShiftMonth(d.year, d.month, delta) && d.day <= DaysInMonth(ty, tm)
    ensures SetMonth(d, m0) == Date(ty, tm, d.day)
  {
    SetMonthFromFirst(d, m0, delta, ty, tm);
    ToDaysInjective(SetMonth(d, m0), Date(ty, tm, d.day));
  }

  /** Otherwise the surplus days carry into the month after the target
      (January 31 goes to March 3 of a common year). */
  lemma SetMonthOverflows(d: Date, m0: int, delta: int, ty: int, tm: int)
    requires ValidDate(d) && (delta == 1 || delta == -1) && m0 == d.month - 1 + delta
    requires (ty, tm) == ShiftMonth(d.year, d.month, delta) && d.day > DaysInMonth(ty, tm)
    ensures SetMonth(d, m0) ==
      Date(ShiftMonth(ty, tm, 1).0, ShiftMonth(ty, tm, 1).1, d.day - DaysInMonth(ty, tm))
  {
    SetMonthFromFirst(d, m0, delta, ty, tm);
    FirstOfNextMonth(ty, tm);
    var (oy, om) := ShiftMonth(ty, tm, 1);
    ToDaysInjective(SetMonth(d, m0), Date(oy, om, d.day - DaysInMonth(ty, tm)));
  }

  /** PageUp and PageDown move to the previous and next month, keeping the day when
      it exists there. Otherwise the surplus days spill over: a PageUp stays in the
      current month, a PageDown lands in the month after the next. */
  lemma PageKeysMoveByMonth(current: Date, py: int, pm: int, ny: int, nm: int)
    requires ValidDate(current)
    requires (py, pm) == ShiftMonth(current.year, current.month, -1)
    requires (ny, nm) == ShiftMonth(current.year, current.month, 1)
    ensures current.day <= DaysInMonth(py, pm) ==> NextFocus(current, PageUp) == Some(Date(py, pm, current.day))
    ensures current.day <= DaysInMonth(ny, nm) ==> NextFocus(current, PageDown) == Some(Date(ny, nm, current.day))
    ensures current.day > DaysInMonth(py, pm) ==>
      NextFocus(current, PageUp) == Some(Date(current.year, current.month, current.day - DaysInMonth(py, pm)))
    ensures current.day > DaysInMonth(ny, nm) ==>
      NextFocus(current, PageDown) ==
        Some(Date(ShiftMonth(ny, nm, 1).0, ShiftMonth(ny, nm, 1).1, current.day - DaysInMonth(ny, nm)))
  {
    PageUpMoves(current, py, pm);
    PageDownMoves(current, ny, nm);
  }

  /** PageUp: `setMonth(getMonth() - 1)`. */
  lemma PageUpMoves(current: Date, py: int, pm: int)
    requires ValidDate(current) && (py, pm) == ShiftMonth(current.year, current.month, -1)
    ensures current.day <= DaysInMonth(py, pm) ==> NextFocus(current, PageUp) == Some(Date(py, pm, current.day))
    ensures current.day > DaysInMonth(py, pm) ==>
      NextFocus(current, PageUp) == Some(Date(current.year, current.month, current.day - DaysInMonth(py, pm)))
  {
    var up := current.month - 1 - 1;
    assert NextFocus(current, PageUp) == Some(SetMonth(current, up));
    if current.day <= DaysInMonth(py, pm) {
      SetMonthKeepsDay(current, up, -1, py, pm);
    } else {
      SetMonthOverflows(current, up, -1, py, pm);
      BackAndForth(current.year, current.month, py, pm);
    }
  }

  /** The month after the month before is the month itself. */
  lemma BackAndForth(y: int, m: int, py: int, pm: int)
    requires 1 <= m <= 12 && (py, pm) == ShiftMonth(y, m, -1)
    ensures ShiftMonth(py, pm, 1) == (y, m)
  {
  }

  /** PageDown: `setMonth(getMonth() + 1)`; a day the next month lacks spills
      into the month after it (January 31 of a common year goes to March 3). */
  lemma PageDownMoves(current: Date, ny: int, nm: int)
    requires ValidDate(current) && (ny, nm) == ShiftMonth(current.year, current.month, 1)
    ensures current.day <= DaysInMonth(ny, nm) ==> NextFocus(current, PageDown) == Some(Date(ny, nm, current.day))
    ensures current.day > DaysInMonth(ny, nm) ==>
      NextFocus(current, PageDown) ==
        Some(Date(ShiftMonth(ny, nm, 1).0, ShiftMonth(ny, nm, 1).1, current.day - DaysInMonth(ny, nm)))
  {
    var down := current.month - 1 + 1;
    assert NextFocus(current, PageDown) == Some(SetMonth(current, down));
    if current.day <= DaysInMonth(ny, nm) {
      SetMonthKeepsDay(current, down, 1, ny, nm);
    } else {
      SetMonthOverflows(current, down, 1, ny, nm);
    }
  }

  /** Home goes to the first and End to the last day of the focused month,
      for every year the Date constructor does not reinterpret. */
  lemma HomeAndEndStayInMonth(current: Date)
    requires ValidDate(current) && (current.year < 0 || 100 <= current.year)
    ensures NextFocus(current, Home) == Some(Date(current.year, current.month, 1))
    ensures NextFocus(current, End) == Some(Date(current.year, current.month, DaysInMonth(current.year, current.month)))
  {
    var y, m := current.year, current.month;
    assert FullYear(y) == y;
    assert NextFocus(current, Home) == Some(NewDate(y, m - 1, 1));
    assert NewDate(y, m - 1, 1) == MakeDay(y, m - 1, 1);
    assert NextFocus(current, End) == Some(NewDate(y, m - 1 + 1, 0));
    LastDayOfMonth(y, m);
  }

  /** `new Date(year, month, 0)` (day 0 of the next month) is the last day of `month`. */
  lemma LastDayOfMonth(y: int, m: int)
    requires 1 <= m <= 12 && FullYear(y) == y
    ensures NewDate(y, m, 0) == Date(y, m, DaysInMonth(y, m))
  {
    if m == 12 {
      DayBeforeNewYear(y);
    } else {
      DayBeforeNextMonth(y, m);
    }
  }

  lemma DayBeforeNewYear(y: int)
    requires FullYear(y) == y
    ensures NewDate(y, 12, 0) == Date(y, 12, 31)
  {
    assert NewDate(y, 12, 0) == AddDays(PrevDay(Date(y + 1, 1, 1)), 0);
  }

  lemma DayBeforeNextMonth(y: int, m: int)
    requires 1 <= m < 12 && FullYear(y) == y
    ensures NewDate(y, m, 0) == Date(y, m, DaysInMonth(y, m))
  {
    assert m / 12 == 0 && m % 12 == m;
    assert NewDate(y, m, 0) == MakeDay(y, m, 0);
    assert MakeDay(y, m, 0) == AddDays(PrevDay(Date(y, m + 1, 1)), 0);
  }

  /** `formatDateForSelector(date)`: the `data-date` value of the cell to focus,
      written as `formatDate` writes a day's key. */
  function FormatDateForSelector(d: Date): (selector: string)
    requires ValidDate(d)
    ensures selector == FormatDate(d)
  {
    IntToString(d.year) + "-" + TwoDigits(d.month) + "-" + TwoDigits(d.day)
  }

  /** The selector names exactly one date: it parses back to the date it was made from. */
  lemma SelectorNamesOneDate(d: Date)
    requires ValidDate(d) && 100 <= d.year
    ensures ParseDate(FormatDateForSelector(d)) == Some(d)
  {
    ParseFormatRoundTrip(d);
  }

  /** The state of `useCalendarKeyboard`: the `year` prop of the latest render
      (the year the grid shows) and the date that has the keyboard focus, which
      survives re-renders. */
  class CalendarKeyboard {
    var year: int
    var focusedDate: Date

    /** The hook starts with the focus on today's date. */
    constructor (year: int, today: Date)
      requires ValidDate(today)
      ensures this.year == year && focusedDate == today
    {
      this.year := year;
      focusedDate := today;
    }

    /** `setFocusedDate(date)`. */
    method SetFocusedDate(date: Date)
      requires ValidDate(date)
      modifies this
      ensures focusedDate == date && year == old(year)
    {
      focusedDate := date;
    }

    /** A re-render with a new `year` prop (the page follows `onYearChange`): the
        handler compares against the new year, and the focused date is kept. */
    method SetYear(y: int)
      modifies this
      ensures year == y && focusedDate == old(focusedDate)
    {
      year := y;
    }

    /** `handleKeyDown(e)` for a key named `keyName`. `onDayCell` says whether the event target lies in a day
        cell. Out come the date passed to `onDaySelect` (Enter and Space), the year
        passed to `onYearChange` (when the new focus leaves the shown year) and the
        selector of the cell to focus. */
    method HandleKeyDown(onDayCell: bool, keyName: string)
      returns (selected: Option<Date>, yearChange: Option<int>, focusSelector: Option<string>)
      requires ValidDate(focusedDate)
      modifies this
      ensures ValidDate(focusedDate) && year == old(year)
      ensures !onDayCell ==> selected.None? && yearChange.None? && focusSelector.None? && focusedDate == old(focusedDate)
      ensures onDayCell && (KeyOf(keyName) == Enter || KeyOf(keyName) == Space) ==>
        selected == Some(old(focusedDate)) && yearChange.None? && focusSelector.None? && focusedDate == old(focusedDate)
      ensures onDayCell && NextFocus(old(focusedDate), KeyOf(keyName)).Some? ==>
        && focusedDate == NextFocus(old(focusedDate), KeyOf(keyName)).value
        && selected.None?
        && yearChange == (if focusedDate.year != year then Some(focusedDate.year) else None)
        && focusSelector == Some(FormatDate(focusedDate))
      ensures onDayCell && KeyOf(keyName).Other? ==>
        selected.None? && yearChange.None? && focusSelector.None? && focusedDate == old(focusedDate)
    {
      selected, yearChange, focusSelector := None, None, None;
      if !onDayCell {
        return;
      }
      var key := KeyOf(keyName);
      var currentDate := focusedDate;
      if key == Enter || key == Space {
        selected := Some(currentDate);
        return;
      }
      var newDate := NextFocus(currentDate, key);
      if newDate.Some? {
        if newDate.value.year != year {
          yearChange := Some(newDate.value.year);
        }
        focusedDate := newDate.value;
        focusSelector := Some(FormatDateForSelector(newDate.value));
      }
    }
  }
}
