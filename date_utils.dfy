/**
  lib/dateUtils.ts: enumerating the dates of a year, the `YYYY-MM-DD` date
  key and its parser, weekday and month abbreviations, "is today" and
  grouping dates by month. The leap rule and day counts live in Calendar.
*/
module DateUtils {
  import opened Wrappers
  import opened Calendar
  import opened JsString

  /** The constructor's reading of a two-digit year keeps the leap rule, except for year 0
      (a leap year) read as 1900 (a common year). */
  lemma FullYearKeepsLeapRule(year: int)
    requires year != 0
    ensures DaysInYear(FullYear(year)) == DaysInYear(year)
  {
    if 0 < year <= 99 {
      var y := 1900 + year;
      assert y % 4 == year % 4;
      assert y % 100 == year % 100;
      assert y % 400 != 0;
    }
  }

  /** `getAllDatesInYear(year)`: one `new Date(year, 0, 1)` per index, moved by
      `setDate(1 + i)`. Every entry is one day after its predecessor. The
      constructor reads a year 0..99 as 1900 + year while the count uses `year`
      itself; the two agree on the leap rule for every year except 0, where the
      366 entries run from 1900-01-01 to 1901-01-01. */
  method AllDatesInYear(year: int) returns (dates: seq<Date>)
    ensures |dates| == DaysInYear(year)
    ensures forall i :: 0 <= i < |dates| ==> ValidDate(dates[i])
    ensures dates[0] == Date(FullYear(year), 1, 1)
    ensures forall i :: 0 < i < |dates| ==> ToDays(dates[i]) == ToDays(dates[i - 1]) + 1
    ensures year != 0 ==> dates[|dates| - 1] == Date(FullYear(year), 12, 31)
    ensures year != 0 ==> forall i :: 0 <= i < |dates| ==> dates[i].year == FullYear(year)
    ensures year == 0 ==> dates[|dates| - 1] == Date(1901, 1, 1)
  {
    dates := [];
    var startDate := NewDate(year, 0, 1);
    var daysInYear := DaysInYear(year);
    var i := 0;
    while i < daysInYear
      invariant 0 <= i <= daysInYear
      invariant |dates| == i
      invariant forall j :: 0 <= j < i ==> ValidDate(dates[j]) && ToDays(dates[j]) == ToDays(startDate) + j
    {
      var date := NewDate(year, 0, 1);
      date := SetDate(date, startDate.day + i);
      dates := dates + [date];
      i := i + 1;
    }
    YearEntries(year, startDate, dates);
  }

  /** What the loop of AllDatesInYear leaves, stated on the calendar. */
  lemma YearEntries(year: int, startDate: Date, dates: seq<Date>)
    requires startDate == NewDate(year, 0, 1) && |dates| == DaysInYear(year)
    requires forall j :: 0 <= j < |dates| ==> ValidDate(dates[j]) && ToDays(dates[j]) == ToDays(startDate) + j
    ensures startDate == Date(FullYear(year), 1, 1) && dates[0] == startDate
    ensures year != 0 ==> dates[|dates| - 1] == Date(FullYear(year), 12, 31)
    ensures year != 0 ==> forall i :: 0 <= i < |dates| ==> dates[i].year == FullYear(year)
    ensures year == 0 ==> dates[|dates| - 1] == Date(1901, 1, 1)
  {
    ToDaysInjective(dates[0], startDate);
    var y := FullYear(year);
    if year != 0 {
      FullYearKeepsLeapRule(year);
      EntriesWithinYear(y, startDate, dates);
    } else {
      YearZeroEntries(startDate, dates);
    }
  }

  lemma EntriesWithinYear(y: int, startDate: Date, dates: seq<Date>)
    requires startDate == Date(y, 1, 1) && |dates| == DaysInYear(y)
    requires forall j :: 0 <= j < |dates| ==> ValidDate(dates[j]) && ToDays(dates[j]) == ToDays(startDate) + j
    ensures dates[|dates| - 1] == Date(y, 12, 31)
    ensures forall i :: 0 <= i < |dates| ==> dates[i].year == y
  {
    var n := |dates|;
    assert ToDays(Date(y, 12, 31)) == ToDays(startDate) + n - 1;
    ToDaysInjective(dates[n - 1], Date(y, 12, 31));
    forall j | 0 <= j < n
      ensures dates[j].year == y
    {
      YearOfDayNumber(dates[j], y);
    }
  }

  lemma YearZeroEntries(startDate: Date, dates: seq<Date>)
    requires startDate == NewDate(0, 0, 1) && |dates| == DaysInYear(0)
    requires forall j :: 0 <= j < |dates| ==> ValidDate(dates[j]) && ToDays(dates[j]) == ToDays(startDate) + j
    ensures dates[|dates| - 1] == Date(1901, 1, 1)
  {
    var y := FullYear(0);
    assert startDate == Date(y, 1, 1);
    assert DaysInYear(y) == 365;
    YearLength(y);
    ToDaysInjective(dates[|dates| - 1], Date(1901, 1, 1));
  }

  /** `String(n).padStart(2, '0')`. */
  function TwoDigits(n: nat): (r: string)
    ensures 1 <= n <= 99 ==> |r| == 2 && AllDigits(r) && DecimalValue(r) == n
  {
    var s := NatToString(n);
    if n < 10 then
      LeadingZero(s);
      PadStart2(s)
    else if n <= 99 then
      DigitCount(n, 2);
      PadStart2(s)
    else
      PadStart2(s)
  }

  /** `formatDate(date)`: year, two-digit month and two-digit day joined by '-'.
      For a four-digit year this is the `full-date` of RFC 3339, section 5.6. */
  function FormatDate(d: Date): (key: string)
    requires ValidDate(d)
    ensures 1000 <= d.year <= 9999 ==>
      && |key| == 10 && key[4] == '-' && key[7] == '-'
      && AllDigits(key[..4]) && AllDigits(key[5..7]) && AllDigits(key[8..])
      && DecimalValue(key[..4]) == d.year
      && DecimalValue(key[5..7]) == d.month
      && DecimalValue(key[8..]) == d.day
  {
    var key := IntToString(d.year) + "-" + TwoDigits(d.month) + "-" + TwoDigits(d.day);
    if 1000 <= d.year <= 9999 then
      DigitCount(d.year, 4);
      KeyFields(NatToString(d.year), TwoDigits(d.month), TwoDigits(d.day));
      key
    else
      key
  }

  /** Where the three fields sit in a ten-character key. */
  lemma KeyFields(y: string, m: string, dd: string)
    requires |y| == 4 && |m| == 2 && |dd| == 2
    ensures var key := y + "-" + m + "-" + dd;
      |key| == 10 && key[..4] == y && key[4] == '-' && key[5..7] == m && key[7] == '-' && key[8..] == dd
  {
  }

  /** `parseDate(s)`: split on '-', read the first three pieces as numbers and
      build `new Date(year, month - 1, day)`, which carries out-of-range months
      and days. Fewer than three pieces, or a piece that is not a number, give
      an invalid Date (None). */
  function ParseDate(s: string): (r: Option<Date>)
    ensures r.Some? ==> ValidDate(r.value)
  {
    var parts := Split(s, '-');
    if |parts| < 3 then None
    else
      var year, month, day := NumberOf(parts[0]), NumberOf(parts[1]), NumberOf(parts[2]);
      if year.None? || month.None? || day.None? then None
      else Some(NewDate(year.value, month.value - 1, day.value))
  }

  /** The key of a date with a non-negative year parses back to the constructor
      applied to that date's own fields. */
  lemma ParseFormattedKey(d: Date)
    requires ValidDate(d) && d.year >= 0
    ensures ParseDate(FormatDate(d)) == Some(NewDate(d.year, d.month - 1, d.day))
  {
    var y, m, dd := NatToString(d.year), TwoDigits(d.month), TwoDigits(d.day);
    DigitsHaveNoDash(y);
    DigitsHaveNoDash(m);
    DigitsHaveNoDash(dd);
    SplitThree(y, m, dd, '-');
    assert Split(FormatDate(d), '-') == [y, m, dd];
    assert NumberOf(y) == Some(d.year) && NumberOf(m) == Some(d.month) && NumberOf(dd) == Some(d.day);
    ParseNumbers(FormatDate(d), d.year, d.month, d.day);
  }

  /** A string whose first three pieces read as numbers parses to the date built from them. */
  lemma ParseNumbers(s: string, year: int, month: int, day: int)
    requires var parts := Split(s, '-');
      && |parts| >= 3 && NumberOf(parts[0]) == Some(year)
      && NumberOf(parts[1]) == Some(month) && NumberOf(parts[2]) == Some(day)
    ensures ParseDate(s) == Some(NewDate(year, month - 1, day))
  {
  }

  lemma DigitsHaveNoDash(s: string)
    requires AllDigits(s)
    ensures '-' !in s
  {
    assert forall i :: 0 <= i < |s| ==> IsDigit(s[i]) && s[i] != '-';
  }

  /** Parsing inverts formatting for every date from year 100 on. */
  lemma ParseFormatRoundTrip(d: Date)
    requires ValidDate(d) && d.year >= 100
    ensures ParseDate(FormatDate(d)) == Some(d)
  {
    ParseFormattedKey(d);
  }

  /** Below year 100 the round trip lands in the twentieth century: the key
      "0050-06-15" is never produced, and "50-06-15" parses to 1950-06-15. */
  lemma TwoDigitYearsShift(d: Date)
    requires ValidDate(d) && 0 <= d.year <= 99 && d.day <= DaysInMonth(1900 + d.year, d.month)
    ensures ParseDate(FormatDate(d)) == Some(Date(1900 + d.year, d.month, d.day))
  {
    TwoDigitYearDate(d);
    ParseFormattedKey(d);
  }

  lemma TwoDigitYearDate(d: Date)
    requires ValidDate(d) && 0 <= d.year <= 99 && d.day <= DaysInMonth(1900 + d.year, d.month)
    ensures NewDate(d.year, d.month - 1, d.day) == Date(1900 + d.year, d.month, d.day)
  {
    assert NewDate(d.year, d.month - 1, d.day) == MakeDay(1900 + d.year, d.month - 1, d.day);
  }

  /** Different dates with four-digit years have different keys. */
  lemma FormatDateInjective(a: Date, b: Date)
    requires ValidDate(a) && ValidDate(b) && 100 <= a.year && 100 <= b.year
    requires FormatDate(a) == FormatDate(b)
    ensures a == b
  {
    ParseFormatRoundTrip(a);
    ParseFormatRoundTrip(b);
  }

  /** For four-digit years, comparing keys as strings is comparing dates. */
  lemma FormatDateOrder(a: Date, b: Date)
    requires ValidDate(a) && ValidDate(b)
    requires 1000 <= a.year <= 9999 && 1000 <= b.year <= 9999
    ensures LexLess(FormatDate(a), FormatDate(b)) <==> Before(a, b)
  {
    var ya, yb := NatToString(a.year), NatToString(b.year);
    var ra := "-" + TwoDigits(a.month) + ("-" + TwoDigits(a.day));
    var rb := "-" + TwoDigits(b.month) + ("-" + TwoDigits(b.day));
    KeySplit(a);
    KeySplit(b);
    DigitCount(a.year, 4);
    DigitCount(b.year, 4);
    LexLessConcat(ya, ra, yb, rb);
    DigitsOrder(ya, yb);
    TailOrder(a.month, a.day, b.month, b.day);
  }

  /** A key is the year's digits followed by the month-and-day tail. */
  lemma KeySplit(d: Date)
    requires ValidDate(d) && 0 <= d.year
    ensures FormatDate(d) == NatToString(d.year) + ("-" + TwoDigits(d.month) + ("-" + TwoDigits(d.day)))
  {
    Regroup(NatToString(d.year), TwoDigits(d.month), TwoDigits(d.day));
  }

  lemma Regroup(y: string, m: string, dd: string)
    ensures y + "-" + m + "-" + dd == y + ("-" + m + ("-" + dd))
  {
    assert y + "-" + m + "-" + dd == y + ("-" + m + ("-" + dd));
  }

  /** The month-and-day tails of two keys compare as (month, day) pairs. */
  lemma TailOrder(m1: int, d1: int, m2: int, d2: int)
    requires 1 <= m1 <= 12 && 1 <= m2 <= 12 && 1 <= d1 <= 31 && 1 <= d2 <= 31
    ensures LexLess("-" + TwoDigits(m1) + ("-" + TwoDigits(d1)), "-" + TwoDigits(m2) + ("-" + TwoDigits(d2)))
      <==> m1 < m2 || (m1 == m2 && d1 < d2)
  {
    var sm1, sm2, sd1, sd2 := TwoDigits(m1), TwoDigits(m2), TwoDigits(d1), TwoDigits(d2);
    LexLessConcat("-" + sm1, "-" + sd1, "-" + sm2, "-" + sd2);
    LexLessConcat("-", sm1, "-", sm2);
    LexLessConcat("-", sd1, "-", sd2);
    DigitsOrder(sm1, sm2);
    DigitsOrder(sd1, sd2);
    assert ("-" + sm1)[1..] == sm1 && ("-" + sm2)[1..] == sm2;
  }

  const DayAbbreviations: seq<string> := ["Su", "Mo", "Tu", "We", "Th", "Fr", "Sa"]

  const MonthAbbreviations: seq<string> :=
    ["Jan", "Feb", "Mar", "Apr", "May", "Jun", "Jul", "Aug", "Sep", "Oct", "Nov", "Dec"]

  /** `getDayOfWeek(date)`: the two-letter abbreviation of the weekday. */
  function DayOfWeek(d: Date): (name: string)
    requires ValidDate(d)
    ensures name in DayAbbreviations && |name| == 2
  {
    DayAbbreviations[Weekday(d)]
  }

  /** The day after has the next abbreviation in Su..Sa, Sa wrapping to Su. */
  lemma DayOfWeekNextDay(d: Date)
    requires ValidDate(d)
    ensures DayOfWeek(NextDay(d)) == DayAbbreviations[(Weekday(d) + 1) % 7]
  {
    WeekdayNextDay(d);
  }

  /** The abbreviation of every date, counted from Monday 2024-01-01. */
  lemma DayOfWeekFromMonday(d: Date, k: int)
    requires ValidDate(d) && ToDays(d) == ToDays(Date(2024, 1, 1)) + k
    ensures DayOfWeek(d) == DayAbbreviations[(1 + k) % 7]
  {
    WeekdayFromMonday(d, k);
  }

  /** The abbreviation repeats every seven days. */
  lemma DayOfWeekRepeatsWeekly(d: Date, later: Date)
    requires ValidDate(d) && ValidDate(later) && ToDays(later) == ToDays(d) + 7
    ensures DayOfWeek(later) == DayOfWeek(d)
  {
    WeekdayAfterWeek(d, later);
  }

  /** 1970-01-01 is "Th" and 2024-01-01 is "Mo". */
  lemma DayOfWeekCalibration()
    ensures DayOfWeek(Date(1970, 1, 1)) == "Th" && DayOfWeek(Date(2024, 1, 1)) == "Mo"
  {
    WeekdayCalibration();
  }

  /** `getMonthName(i)`: an abbreviation for 0..11; any other index reads past the
      table and gives `undefined` (None). */
  function MonthName(monthIndex: int): (name: Option<string>)
    ensures name.Some? <==> 0 <= monthIndex < 12
    ensures name.Some? ==> name.value == MonthAbbreviations[monthIndex] && |name.value| == 3
  {
    if 0 <= monthIndex < 12 then Some(MonthAbbreviations[monthIndex]) else None
  }

  /** `isToday(date)` with the clock reading `today` passed in. */
  predicate IsToday(d: Date, today: Date): (same: bool)
    ensures same <==> d == today
  {
    d.day == today.day && d.month == today.month && d.year == today.year
  }

  /** A date is today exactly when it has today's day number. */
  lemma IsTodayIffSameDay(d: Date, today: Date)
    requires ValidDate(d) && ValidDate(today)
    ensures IsToday(d, today) <==> ToDays(d) == ToDays(today)
  {
    if ToDays(d) == ToDays(today) {
      ToDaysInjective(d, today);
    }
  }

  /** The dates of zero-based month `m0`, in input order. */
  function InMonth(dates: seq<Date>, m0: int): (bucket: seq<Date>)
    ensures |bucket| <= |dates|
  {
    if dates == [] then []
    else
      var last := dates[|dates| - 1];
      var rest := InMonth(dates[..|dates| - 1], m0);
      assert dates == dates[..|dates| - 1] + [last];
      rest + (if last.month - 1 == m0 then [last] else [])
  }

  /** Bucketing keeps input order: the bucket of a concatenation is the
      concatenation of the buckets. */
  lemma {:induction false} InMonthAppend(a: seq<Date>, b: seq<Date>, m0: int)
    ensures InMonth(a + b, m0) == InMonth(a, m0) + InMonth(b, m0)
    decreases |b|
  {
    if b != [] {
      var n := |b| - 1;
      assert (a + b)[..|a + b| - 1] == a + b[..n];
      InMonthAppend(a, b[..n], m0);
    } else {
      assert a + b == a;
    }
  }

  /** The total size of the buckets of months 0 .. k-1. */
  function BucketTotal(dates: seq<Date>, k: nat): nat {
    if k == 0 then 0 else BucketTotal(dates, k - 1) + |InMonth(dates, k - 1)|
  }

  /** A bucket holds exactly the input dates of its month. */
  lemma {:induction false} InMonthMembers(dates: seq<Date>, m0: int, x: Date)
    ensures x in InMonth(dates, m0) <==> x in dates && x.month - 1 == m0
    decreases |dates|
  {
    if dates != [] {
      var n := |dates| - 1;
      InMonthMembers(dates[..n], m0, x);
      InMonthSnoc(dates[..n], dates[n], m0);
      assert dates == dates[..n] + [dates[n]];
    }
  }

  /** Appending one date adds it to its own month's bucket and to no other. */
  lemma InMonthSnoc(dates: seq<Date>, x: Date, m0: int)
    ensures InMonth(dates + [x], m0) == InMonth(dates, m0) + (if x.month - 1 == m0 then [x] else [])
  {
    assert (dates + [x])[..|dates|] == dates;
  }

  lemma InMonthSnocSize(dates: seq<Date>, x: Date, m0: int)
    ensures |InMonth(dates + [x], m0)| == |InMonth(dates, m0)| + (if x.month - 1 == m0 then 1 else 0)
  {
    InMonthSnoc(dates, x, m0);
  }

  lemma {:induction false} BucketTotalStep(dates: seq<Date>, x: Date, k: nat)
    ensures BucketTotal(dates + [x], k) == BucketTotal(dates, k) + (if 0 <= x.month - 1 < k then 1 else 0)
  {
    if k > 0 {
      var mo := x.month - 1;
      var earlier, here := (if 0 <= mo < k - 1 then 1 else 0), (if mo == k - 1 then 1 else 0);
      assert (if 0 <= mo < k then 1 else 0) == earlier + here;
      BucketTotalStep(dates, x, k - 1);
      var grownTotal, total := BucketTotal(dates + [x], k - 1), BucketTotal(dates, k - 1);
      assert grownTotal == total + earlier;
      InMonthSnocSize(dates, x, k - 1);
      var grownBucket, bucket := |InMonth(dates + [x], k - 1)|, |InMonth(dates, k - 1)|;
      assert grownBucket == bucket + here;
      assert BucketTotal(dates + [x], k) == grownTotal + grownBucket;
      assert BucketTotal(dates, k) == total + bucket;
    }
  }

  lemma {:induction false} BucketTotalOfNothing(dates: seq<Date>, k: nat)
    requires dates == []
    ensures BucketTotal(dates, k) == 0
  {
    if k > 0 {
      BucketTotalOfNothing(dates, k - 1);
    }
  }

  /** The twelve buckets together hold every input date exactly once. */
  lemma {:induction false} BucketsCoverInput(dates: seq<Date>)
    requires forall i :: 0 <= i < |dates| ==> ValidDate(dates[i])
    ensures BucketTotal(dates, 12) == |dates|
    decreases |dates|
  {
    if dates != [] {
      var n := |dates| - 1;
      assert ValidDate(dates[n]);
      BucketsCoverInput(dates[..n]);
      BucketTotalStep(dates[..n], dates[n], 12);
      assert dates[..n] + [dates[n]] == dates;
      assert BucketTotal(dates, 12) == BucketTotal(dates[..n], 12) + 1;
    } else {
      BucketTotalOfNothing(dates, 12);
    }
  }

  /** The map the grouping loop has built after reading `dates`. */
  function ByMonth(dates: seq<Date>): map<int, seq<Date>>
    decreases |dates|
  {
    if dates == [] then map[]
    else
      var n := |dates| - 1;
      var grouped := ByMonth(dates[..n]);
      var month := dates[n].month - 1;
      grouped[month := (if month in grouped then grouped[month] else []) + [dates[n]]]
  }

  /** The loop's map has a key exactly for each non-empty bucket, holding that bucket. */
  lemma {:induction false} ByMonthBuckets(dates: seq<Date>)
    ensures forall m0 :: m0 in ByMonth(dates) <==> InMonth(dates, m0) != []
    ensures forall m0 :: m0 in ByMonth(dates) ==> ByMonth(dates)[m0] == InMonth(dates, m0)
    decreases |dates|
  {
    if dates != [] {
      var n := |dates| - 1;
      ByMonthBuckets(dates[..n]);
      assert dates == dates[..n] + [dates[n]];
      forall m0
        ensures InMonth(dates, m0) == InMonth(dates[..n], m0) + (if dates[n].month - 1 == m0 then [dates[n]] else [])
      {
        InMonthSnoc(dates[..n], dates[n], m0);
      }
    }
  }

  /** The loop's map has a key exactly for each month that occurs in `dates`. */
  lemma ByMonthKeys(dates: seq<Date>)
    ensures forall m0 :: m0 in ByMonth(dates) <==> exists d :: d in dates && d.month - 1 == m0
  {
    ByMonthBuckets(dates);
    forall m0
      ensures m0 in ByMonth(dates) <==> exists d :: d in dates && d.month - 1 == m0
    {
      BucketNonEmpty(dates, m0);
    }
  }

  /** A bucket is non-empty exactly when some input date lies in its month. */
  lemma BucketNonEmpty(dates: seq<Date>, m0: int)
    ensures InMonth(dates, m0) != [] <==> exists d :: d in dates && d.month - 1 == m0
  {
    if InMonth(dates, m0) != [] {
      var x := InMonth(dates, m0)[0];
      InMonthMembers(dates, m0, x);
    } else {
      forall d | d in dates
        ensures d.month - 1 != m0
      {
        InMonthMembers(dates, m0, d);
      }
    }
  }

  /** `groupDatesByMonth(dates)`: a map from each zero-based month that occurs to
      its dates, in input order. */
  method GroupDatesByMonth(dates: seq<Date>) returns (grouped: map<int, seq<Date>>)
    ensures forall m0 :: m0 in grouped <==> exists d :: d in dates && d.month - 1 == m0
    ensures forall m0 :: m0 in grouped ==> grouped[m0] == InMonth(dates, m0)
  {
    grouped := map[];
    var i := 0;
    while i < |dates|
      invariant 0 <= i <= |dates|
      invariant grouped == ByMonth(dates[..i])
    {
      var date := dates[i];
      var month := date.month - 1;
      if month !in grouped {
        grouped := grouped[month := []];
      }
      grouped := grouped[month := grouped[month] + [date]];
      assert dates[..i + 1][..i] == dates[..i];
      i := i + 1;
    }
    assert dates[..i] == dates;
    ByMonthBuckets(dates);
    ByMonthKeys(dates);
  }
}
