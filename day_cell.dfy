/**
  components/DayCell.tsx: the decision behind a day's look — today first,
  then weekend, then an ordinary day — and the label it shows. The clock
  reading `today` is a parameter; CSS class strings are not modelled, only
  which of them apply.
*/
module DayCell {
  import opened Calendar
  import opened DateUtils

  datatype DayKind = Today | Weekend | Normal

  /** `date.getDay() === 0 || date.getDay() === 6`: Sunday or Saturday. */
  predicate IsWeekend(d: Date): (weekend: bool)
    requires ValidDate(d)
    ensures weekend <==> DayOfWeek(d) == "Sa" || DayOfWeek(d) == "Su"
  {
    var w := Weekday(d);
    assert DayOfWeek(d) == DayAbbreviations[w];
    assert w == 0 || w == 6 || DayAbbreviations[w][0] != 'S';
    w == 0 || w == 6
  }

  /** The single kind of a day, highest priority first. */
  function Classify(d: Date, today: Date): (kind: DayKind)
    requires ValidDate(d)
    ensures kind == Today <==> IsToday(d, today)
    ensures kind == Weekend <==> IsWeekend(d) && !IsToday(d, today)
    ensures kind == Normal <==> !IsWeekend(d) && !IsToday(d, today)
  {
    if IsToday(d, today) then Today else if IsWeekend(d) then Weekend else Normal
  }

  datatype TextTone = TodayText | WeekendText | RegularText

  /** Which of the cell's conditional classes apply: the today frame, the grey
      weekend background, the white background, and the tone of the text. */
  datatype CellLook = CellLook(todayFrame: bool, weekendBackground: bool, whiteBackground: bool, text: TextTone)

  /** The three class conditionals of the cell and the text-colour conditional,
      each written as the component writes it. */
  function Render(d: Date, today: Date): (look: CellLook)
    requires ValidDate(d)
    ensures look.todayFrame ==> !look.weekendBackground && !look.whiteBackground
    ensures (if look.todayFrame then 1 else 0) + (if look.weekendBackground then 1 else 0)
      + (if look.whiteBackground then 1 else 0) == 1
  {
    var isCurrentDay := IsToday(d, today);
    var isWeekend := IsWeekend(d);
    CellLook(
      isCurrentDay,
      isWeekend && !isCurrentDay,
      !isCurrentDay && !isWeekend,
      if isCurrentDay then TodayText else if isWeekend then WeekendText else RegularText)
  }

  function ToneOf(kind: DayKind): TextTone {
    match kind
    case Today => TodayText
    case Weekend => WeekendText
    case Normal => RegularText
  }

  /** Background and text both follow the kind: today beats weekend, weekend beats normal. */
  lemma RenderFollowsKind(d: Date, today: Date)
    requires ValidDate(d)
    ensures var look, kind := Render(d, today), Classify(d, today);
      && (look.todayFrame <==> kind == Today)
      && (look.weekendBackground <==> kind == Weekend)
      && (look.whiteBackground <==> kind == Normal)
      && look.text == ToneOf(kind)
  {
  }

  /** Weekend-ness repeats every seven days. */
  lemma WeekendRepeatsWeekly(d: Date, later: Date)
    requires ValidDate(d) && ValidDate(later) && ToDays(later) == ToDays(d) + 7
    ensures IsWeekend(later) == IsWeekend(d)
  {
    WeekdayAfterWeek(d, later);
  }

  /** What the cell shows: the day of the month and the weekday abbreviation. */
  datatype Label = Label(dayNumber: int, weekday: string)

  function DayLabel(d: Date): (shown: Label)
    requires ValidDate(d)
    ensures 1 <= shown.dayNumber <= 31 && shown.dayNumber == d.day
    ensures shown.weekday == DayOfWeek(d) && |shown.weekday| == 2
  {
    Label(d.day, DayOfWeek(d))
  }
}
