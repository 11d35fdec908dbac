# yearview — a Dafny model of the year calendar's core

yearview shows a whole year as a grid of day cells. Users keep events in
coloured categories, stored in InstantDB. Events can be imported from Google
Calendar into a reserved category. This project models the logic behind that
and proves properties of it:

- **Civil-date engine** (`lib/dateUtils.ts`). It covers:
  - the Gregorian leap rule and the day counts;
  - the list of every date of a year;
  - the `YYYY-MM-DD` key and its parser;
  - weekday and month abbreviations;
  - "is today";
  - grouping dates by month.
- **JavaScript `Date` semantics.** The code relies on the constructor, `setDate`, `setMonth` and `getDay`. They are stated on civil `(year, month, day)` triples, with a day number since 0001-01-01:
  - `Calendar.MakeDay` is ECMAScript's MakeDay: out-of-range months carry into the year and out-of-range days carry across months;
  - `Calendar.FullYear` is the constructor's reading of years 0..99 as 1900..1999.
- **Keyboard navigation** (`useCalendarKeyboard` in `hooks/useAccessibility.ts`). A pure function gives the date each key moves to. The `CalendarKeyboard` class holds the shown year and the focused date. Its `HandleKeyDown` method moves the focus, and `SetYear` is a re-render with a new year.
- **The day cell** (`components/DayCell.tsx`). It decides today, then weekend, then ordinary, and shows a label.
- **The store and its handlers** (`hooks/useCalendarActions.ts` and the page's own handlers in `app/page.tsx`):
  - the `Db` class holds one map per namespace. Each `delete` or `update` transaction is a method of `Db`. `update` is an upsert that merges fields;
  - the `CalendarState` class holds the visible-category set and the tracked Google category;
  - a handler's `forEach` over a list becomes a `for` loop with its invariant;
  - the page's filters and effects are functions over the query result.

Inputs the code reads from the outside world are parameters:
- the clock (`new Date()`, `Date.now()`);
- fresh ids (`uuidv4()`);
- the signed-in user's id (`None` when nobody is signed in);
- whether a key event's target lies inside a day cell.

The module layout is:
- `Wrappers` (Option);
- `Calendar`;
- `JsString` (the string operations the key relies on);
- `DateUtils`;
- `DayCell`;
- `Accessibility`;
- `Store`;
- `ViewState`;
- `CalendarActions`;
- `HomePage`.

## Model

| member | source | states |
|---|---|---|
| Calendar.IsLeapYear | lib/dateUtils.ts:4-6 | the Gregorian rule: every leap year is a multiple of 4; a multiple of 4 that is not a century is a leap year; a century is one exactly when it is a multiple of 400 |
| Calendar.DaysInYear | lib/dateUtils.ts:11-13 | 366 exactly for a leap year (the `isLeapYear` rule of lines 4-6), otherwise 365 |
| Calendar.DaysInMonth | lib/dateUtils.ts:18-30 | month lengths 28..31; February has 29 days exactly in a leap year |
| Calendar.YearLength | lib/dateUtils.ts:11-13 | the day-number count of a year is DaysInYear: the leap rule and the calendar agree |
| Calendar.MonthLength | lib/dateUtils.ts:18-30 | the days before a month plus its length are the days before the next month |
| Calendar.BeforeHasFewerDays | lib/dateUtils.ts:18-30 | an earlier date has a smaller day number |
| Calendar.ToDays | lib/dateUtils.ts:18-30 | a date's day number lies inside its year's span |
| Calendar.BeforeIffFewerDays | lib/dateUtils.ts:18-30 | chronological order of civil dates is the order of their day numbers |
| Calendar.ToDaysInjective | lib/dateUtils.ts:18-30 | different valid dates have different day numbers |
| Calendar.YearOfDayNumber | lib/dateUtils.ts:18-30 | a date whose day number falls in a year's span belongs to that year |
| Calendar.NextDay | lib/dateUtils.ts:25 | the following date, across month and year ends, is one day number later |
| Calendar.PrevDay | hooks/useAccessibility.ts:121-125 | the preceding date is one day number earlier |
| Calendar.AddDays | hooks/useAccessibility.ts:121-140 | the date k days away is valid and exactly k day numbers away |
| Calendar.AddDaysFromDayNumbers | hooks/useAccessibility.ts:121-140 | two dates k day numbers apart are related by AddDays |
| Calendar.QuotientStep | lib/dateUtils.ts:4-6 | the count of multiples of 4, 100 or 400 up to a year grows by one exactly at a multiple |
| Calendar.MakeDay | lib/dateUtils.ts:20-25 | `new Date(y, m, d)` normalisation: month carried into the year, day carried across months; in-range fields give that very date |
| Calendar.FullYear | lib/dateUtils.ts:20 | the Date constructor reads years 0..99 as 1900..1999 and keeps every other year |
| Calendar.NewDate | lib/dateUtils.ts:78 | `new Date(year, monthIndex, day)` is the valid date MakeDay gives for the constructor's year |
| Calendar.SetDate | lib/dateUtils.ts:25 | `setDate(dt)` moves the date by `dt - getDate()` days |
| Calendar.SetMonth | hooks/useAccessibility.ts:141-150 | `setMonth(m)` lands `day - 1` days after the first of the normalised target month |
| Calendar.Weekday | components/DayCell.tsx:17 | `getDay()` is a weekday index in 0..6 |
| Calendar.WeekdayAfterWeek | hooks/useAccessibility.ts:131-140 | a date seven day numbers later falls on the same weekday |
| Calendar.WeekdayNextDay | components/DayCell.tsx:17 | the day after is the next weekday, Saturday (6) wrapping to Sunday (0) |
| Calendar.WeekdayFromMonday | components/DayCell.tsx:17 | every date k day numbers after Monday 2024-01-01 is weekday (1 + k) mod 7 |
| Calendar.WeekdayCalibration | lib/dateUtils.ts:45-48 | 1970-01-01 is a Thursday (4) and 2024-01-01 a Monday (1) |
| Calendar.ShiftMonth | hooks/useAccessibility.ts:141-150 | the month before and after, wrapping December to January and back across years |
| Calendar.FirstOfNextMonth | hooks/useAccessibility.ts:155-158 | the first of the next month is DaysInMonth days after the first of this one |
| JsString.NatToString | lib/dateUtils.ts:37-39 | `String(n)` is the digit string of n with no leading zero, as long as n's magnitude requires |
| JsString.DigitCount | lib/dateUtils.ts:36-39 | a number between 10^(k-1) and 10^k prints with exactly k digits |
| JsString.LeadingZero | lib/dateUtils.ts:37-38 | padding with '0' keeps a digit string's value |
| JsString.IntToString | lib/dateUtils.ts:36-39 | `String(i)` of an integer: digits, with a minus sign for negatives |
| JsString.PadStart2 | lib/dateUtils.ts:37-38 | `padStart(2, '0')` keeps strings of length 2 or more and left-fills shorter ones with zeros |
| JsString.Split | lib/dateUtils.ts:77 | `split` always yields at least one piece |
| JsString.SplitNoSeparator | lib/dateUtils.ts:77 | a string without the separator splits into itself |
| JsString.SplitAtSeparator | lib/dateUtils.ts:77 | splitting stops at the first separator and continues after it |
| JsString.SplitThree | lib/dateUtils.ts:77 | three pieces without the separator, joined by it, split back into those three pieces |
| JsString.NumberOf | lib/dateUtils.ts:77 | `Number` of a digit string is its decimal value; anything else is not a number |
| JsString.LexLess | app/page.tsx:59 | string `<` as the page uses it: a proper prefix is smaller, and no string is smaller than one of its prefixes (so none is smaller than itself) |
| JsString.LexLessConcat | app/page.tsx:59 | string order on concatenations with equal-length heads compares heads, then tails |
| JsString.DigitsOrder | app/page.tsx:59 | on equal-length digit strings, string order is numeric order |
| DateUtils.FullYearKeepsLeapRule | lib/dateUtils.ts:18-21 | the constructor's year has the same length as the requested year, for every year except 0 |
| DateUtils.AllDatesInYear | lib/dateUtils.ts:18-30 | DaysInYear(year) entries, each one day after the previous. They run from January 1 to December 31 of the constructor's year FullYear(year), which is 1900 + year for years 1..99 and the year itself otherwise. Year 0 is the exception: 366 entries from 1900-01-01 to 1901-01-01 |
| DateUtils.YearEntries | lib/dateUtils.ts:18-30 | the loop's entries start on January 1 of the constructor's year and end on December 31 |
| DateUtils.EntriesWithinYear | lib/dateUtils.ts:18-30 | consecutive entries from January 1 of a year, as many as its days, stay in the year and end on December 31 |
| DateUtils.YearZeroEntries | lib/dateUtils.ts:18-30 | for year 0 the last of the 366 entries is 1901-01-01 |
| DateUtils.TwoDigits | lib/dateUtils.ts:37-38 | months and days 1..99 print as exactly two digits with their value |
| DateUtils.FormatDate | lib/dateUtils.ts:35-40 | for years 1000..9999 the key has 10 characters, with dashes at 4 and 7, and the fields are the year, month and day |
| DateUtils.ParseDate | lib/dateUtils.ts:76-79 | a parse that succeeds yields a valid date |
| DateUtils.ParseFormattedKey | lib/dateUtils.ts:76-79 | parsing a key gives back `new Date(year, month - 1, day)` for every non-negative year |
| DateUtils.ParseFormatRoundTrip | lib/dateUtils.ts:76-79 | `parseDate(formatDate(d)) == d` for every date from year 100 on |
| DateUtils.TwoDigitYearsShift | lib/dateUtils.ts:76-79 | keys of years 0..99 parse to the same day in 1900..1999 |
| DateUtils.TwoDigitYearDate | lib/dateUtils.ts:78 | `new Date(y, m - 1, d)` with a year 0..99 is that day of 1900 + y |
| DateUtils.FormatDateInjective | lib/dateUtils.ts:35-40 | different dates from year 100 on have different keys |
| DateUtils.KeySplit | lib/dateUtils.ts:35-40 | a key is the year's digits followed by the dash-led month and day fields |
| DateUtils.TailOrder | lib/dateUtils.ts:35-40 | string order of the month-and-day tails of keys is (month, day) order |
| DateUtils.FormatDateOrder | lib/dateUtils.ts:35-40 | for four-digit years, string order of keys is chronological order of dates |
| DateUtils.DayOfWeek | lib/dateUtils.ts:45-48 | the abbreviation is one of Su..Sa, two letters |
| DateUtils.DayOfWeekRepeatsWeekly | lib/dateUtils.ts:45-48 | a date seven day numbers later has the same abbreviation |
| DateUtils.DayOfWeekNextDay | lib/dateUtils.ts:45-48 | the day after gets the next abbreviation of Su..Sa, Sa wrapping to Su |
| DateUtils.DayOfWeekFromMonday | lib/dateUtils.ts:45-48 | every date k day numbers after Monday 2024-01-01 gets the (1 + k) mod 7-th abbreviation |
| DateUtils.DayOfWeekCalibration | lib/dateUtils.ts:45-48 | 1970-01-01 is "Th" and 2024-01-01 is "Mo" |
| DateUtils.MonthName | lib/dateUtils.ts:53-59 | indices 0..11 give the i-th of Jan..Dec; any other index gives undefined |
| DateUtils.IsToday | lib/dateUtils.ts:64-71 | comparing day, month and full year is exactly equality of calendar dates (the time of day plays no part) |
| DateUtils.IsTodayIffSameDay | lib/dateUtils.ts:64-71 | a date is today exactly when its day, month and year are today's, i.e. it has today's day number |
| DateUtils.InMonthMembers | lib/dateUtils.ts:84-96 | a bucket holds exactly the input dates of its month |
| DateUtils.InMonthSnoc | lib/dateUtils.ts:87-93 | one more input date joins the end of its own month's bucket and no other |
| DateUtils.InMonthAppend | lib/dateUtils.ts:87-93 | buckets keep input order: the bucket of a concatenation is the concatenation of buckets |
| DateUtils.BucketsCoverInput | lib/dateUtils.ts:84-96 | the twelve bucket sizes sum to the input length |
| DateUtils.ByMonthBuckets | lib/dateUtils.ts:84-96 | the month map has a key exactly for each non-empty bucket, and that key holds the bucket |
| DateUtils.ByMonthKeys | lib/dateUtils.ts:84-96 | the month map has a key exactly for each month some input date lies in |
| DateUtils.GroupDatesByMonth | lib/dateUtils.ts:84-96 | the keys are exactly the months that occur; each key maps to its month's dates in input order |
| DayCell.Classify | components/DayCell.tsx:16-30 | exactly one kind applies, by priority: today, else weekend (Sunday or Saturday), else normal |
| DayCell.Render | components/DayCell.tsx:25-34 | exactly one of the today frame, weekend background and white background applies; today never gets the weekend background |
| DayCell.RenderFollowsKind | components/DayCell.tsx:25-34 | backgrounds and text tone follow the classification's priority |
| DayCell.WeekendRepeatsWeekly | components/DayCell.tsx:17 | a date seven day numbers later is a weekend exactly when this one is |
| DayCell.IsWeekend | components/DayCell.tsx:17 | `getDay()` 0 or 6: a day is a weekend exactly when its abbreviation is "Sa" or "Su" |
| DayCell.DayLabel | components/DayCell.tsx:15-37 | the label is the day of the month (1..31) and `getDayOfWeek(date)` |
| Accessibility.KeyOf | hooks/useAccessibility.ts:120-163 | the ten key names the switch handles are recognised; every other name is kept as Other |
| Accessibility.NextFocus | hooks/useAccessibility.ts:120-158 | exactly the eight navigation keys move the focus, always to a valid date |
| Accessibility.SetDateMovesByDays | hooks/useAccessibility.ts:121-140 | `setDate(getDate() + k)` is the date k days away |
| Accessibility.ArrowsMoveByDays | hooks/useAccessibility.ts:121-140 | the left and right arrows move one day and up and down one week, across month and year ends. Up and down keep the weekday |
| Accessibility.SetMonthFromFirst | hooks/useAccessibility.ts:141-150 | one month forward or back lands `day - 1` days after the first of the target month |
| Accessibility.SetMonthKeepsDay | hooks/useAccessibility.ts:141-150 | the day of the month is kept when the target month has it |
| Accessibility.SetMonthOverflows | hooks/useAccessibility.ts:141-150 | otherwise the surplus days spill into the month after the target |
| Accessibility.PageKeysMoveByMonth | hooks/useAccessibility.ts:141-150 | PageUp and PageDown move to the same day of the previous and next month when the target month has that day. Otherwise the surplus days spill over: PageUp stays in the current month, PageDown lands in the month after the next (January 31 of a common year goes to March 3) |
| Accessibility.PageUpMoves | hooks/useAccessibility.ts:141-145 | PageUp keeps the day in the previous month when it has it, and otherwise spills the surplus into the current month |
| Accessibility.PageDownMoves | hooks/useAccessibility.ts:146-150 | PageDown keeps the day in the next month when it has it, and otherwise spills the surplus into the month after the next |
| Accessibility.LastDayOfMonth | hooks/useAccessibility.ts:155-158 | for a year the Date constructor keeps (FullYear(y) == y, that is, outside 0..99), day 0 of the month after is the last day of the month, December included |
| Accessibility.HomeAndEndStayInMonth | hooks/useAccessibility.ts:151-158 | for a focused year outside 0..99, Home goes to day 1 and End to the last day (28/29/30/31, by the leap rule) of the focused month |
| Accessibility.FormatDateForSelector | hooks/useAccessibility.ts:197-202 | the selector agrees with `formatDate` on every date |
| Accessibility.SelectorNamesOneDate | hooks/useAccessibility.ts:174-176 | the selector of a date from year 100 on parses back to that date |
| Accessibility.CalendarKeyboard.constructor | hooks/useAccessibility.ts:104-109 | the focus starts on today |
| Accessibility.CalendarKeyboard.SetFocusedDate | hooks/useAccessibility.ts:190-192 | the focused date becomes the given date |
| Accessibility.CalendarKeyboard.SetYear | hooks/useAccessibility.ts:104-111 | a re-render with a new `year` prop changes the year the handler compares against and keeps the focused date |
| Accessibility.CalendarKeyboard.HandleKeyDown | hooks/useAccessibility.ts:111-183 | outside a day cell nothing happens. Enter and Space select the focused date without moving it. A navigation key moves the focus to NextFocus, reports the new year exactly when it differs from the shown year, and names the cell to focus. Any other key does nothing |
| Store.PatchedEvent | hooks/useCalendarActions.ts:25-34 | the update sets the form's fields and `updatedAt` and keeps `userId` and `createdAt`; on an unknown id it creates a record without them |
| Store.CreatedEvent | hooks/useCalendarActions.ts:38-48 | the created record is the update-only record of the form's fields, completed with the user as owner and the save instant as creation time |
| Store.ImportedEvent | hooks/useCalendarActions.ts:148-158 | an imported record is exactly the record the create branch writes for the same fields, under the incoming id |
| Store.PatchedCategory | hooks/useCalendarActions.ts:74-79 | the update sets name and colour and keeps owner and creation time |
| Store.Filter | app/page.tsx:44 | `filter` keeps exactly the elements the test accepts |
| Store.FilterSnoc | app/page.tsx:44 | `filter` walks the list in order: the last element is appended once exactly when the test accepts it |
| Store.FilterAppend | app/page.tsx:44 | filtering a concatenation concatenates the filtered parts, so order and repetitions are kept |
| Store.FilterSingleton | app/page.tsx:44 | a one-element list is kept whole or dropped |
| Store.CategoryEvents | hooks/useCalendarActions.ts:102 | exactly the listed events of the category |
| Store.WriteAll | hooks/useCalendarActions.ts:147-160 | writing the batch adds exactly the incoming ids and keeps every other record |
| Store.WriteAllLastWins | hooks/useCalendarActions.ts:147-160 | each incoming id holds the record of its last batch entry: its own id and category, the user, the import time |
| Store.WriteAllKeyed | hooks/useCalendarActions.ts:147-160 | writing the batch keeps every record under its own id |
| Store.WriteAllIdempotent | hooks/useCalendarActions.ts:147-160 | writing the same batch twice at the same time is writing it once |
| Store.FindByName | hooks/useCalendarActions.ts:173 | `find` returns a listed category with the name exactly when one exists |
| Store.FindByNameFirst | hooks/useCalendarActions.ts:173 | that category is the first one in the list with the name |
| Store.OtherCategoriesUntouched | hooks/useCalendarActions.ts:141-144 | deleting a category's listed events leaves every stored event of another category as it was |
| Store.DeletionIsComplete | hooks/useCalendarActions.ts:102-114 | when the list shows the whole store, no event of the category remains |
| Store.ImportReplaces | hooks/useCalendarActions.ts:140-160 | after the delete-then-write, deleted ids stay gone unless incoming, incoming ids hold the new content, and all else is unchanged |
| Store.LastIndexOf | hooks/useCalendarActions.ts:147-160 | every incoming id has a last entry in the batch |
| Store.Db.constructor | app/page.tsx:31-41 | the store starts empty |
| Store.Db.DeleteEvent | hooks/useCalendarActions.ts:60 | removes exactly that id; nothing else changes |
| Store.Db.PatchEvent | hooks/useCalendarActions.ts:25-34 | the event under the id becomes the merged record; nothing else changes |
| Store.Db.PutEvent | hooks/useCalendarActions.ts:49 | an update with every attribute stores exactly that record |
| Store.Db.DeleteCategory | hooks/useCalendarActions.ts:117 | removes exactly that category; events untouched |
| Store.Db.PatchCategory | hooks/useCalendarActions.ts:74-79 | the category under the id becomes the merged record |
| Store.Db.PutCategory | hooks/useCalendarActions.ts:90 | stores exactly the given category |
| Store.Db.DeleteCategoryEvents | hooks/useCalendarActions.ts:102-114 | the store loses exactly the ids of the category's listed events; the count is their number |
| Store.Db.WriteIncoming | hooks/useCalendarActions.ts:147-160 | the store becomes WriteAll of the batch, one transaction per record |
| ViewState.Toggled | hooks/useCalendarActions.ts:190-200 | exactly the given id flips membership; every other id keeps it |
| ViewState.ToggleTwice | hooks/useCalendarActions.ts:190-200 | toggling twice restores the set |
| ViewState.CalendarState.constructor | app/page.tsx:21-28 | nothing visible and no tracked Google category at first |
| ViewState.CalendarState.SetVisibleCategoryIds | app/page.tsx:66 | replaces the visible set |
| ViewState.CalendarState.ShowCategory | hooks/useCalendarActions.ts:91 | adds the id to the visible set |
| ViewState.CalendarState.HideCategory | hooks/useCalendarActions.ts:119-123 | removes the id from the visible set |
| ViewState.CalendarState.ToggleCategory | hooks/useCalendarActions.ts:190-200 | the visible set becomes Toggled |
| ViewState.CalendarState.SetGoogleCalendarCategoryId | hooks/useCalendarActions.ts:185 | sets the tracked Google category |
| CalendarActions.SaveEvent | hooks/useCalendarActions.ts:19-56 | nothing without a user. A truthy id merges the form's fields over the stored event. Otherwise the user's full event is created under the fresh id |
| CalendarActions.DeleteEvent | hooks/useCalendarActions.ts:58-66 | removes exactly that event, with or without a user |
| CalendarActions.SaveCategory | hooks/useCalendarActions.ts:68-98 | nothing without a user. Updating renames and recolours only. Creating stores the user's category under the fresh id and makes it visible |
| CalendarActions.DeleteCategory | hooks/useCalendarActions.ts:100-134 | confirmed: the category's listed events go, then the category, and it is hidden; the count is the number of those events |
| CalendarActions.ImportGoogleEvents | hooks/useCalendarActions.ts:136-167 | nothing without a user; otherwise the category's listed events are deleted and then the batch is written under its own ids |
| CalendarActions.CreateGoogleCategory | hooks/useCalendarActions.ts:169-188 | '' and no change without a user. An existing reserved category's id comes back with no write. Otherwise exactly one reserved category is created and tracked. The visible set never changes |
| CalendarActions.FindOrCreateIdempotent | hooks/useCalendarActions.ts:169-188 | once the list shows the first call's outcome, a second call finds the same category |
| CalendarActions.DeleteGoogleEvents | hooks/useCalendarActions.ts:243-260 | the category's listed events go and the category is hidden, but the category stays |
| CalendarActions.ToggleCategory | hooks/useCalendarActions.ts:190-200 | the visible set becomes Toggled |
| HomePage.UserCategories | app/page.tsx:44 | exactly the categories whose owner equals the signed-in user's id |
| HomePage.InYearRange | app/page.tsx:59 | the string range is inclusive: both the `-01-01` and the `-12-31` bound lie in it |
| HomePage.YearEvents | app/page.tsx:57-60 | exactly the user's events whose date string lies between the year's bounds |
| HomePage.YearBoundsAreKeys | app/page.tsx:59 | the bounds are the keys of January 1 and December 31 of a four-digit year |
| HomePage.YearRangeIsYear | app/page.tsx:57-60 | for four-digit years, the string range holds a date's key exactly when the date is in the year |
| HomePage.YearEventsByStartYear | app/page.tsx:57-60 | an event with a well-formed key is listed exactly when it is the user's and starts in the selected year |
| HomePage.InitialVisible | app/page.tsx:63-68 | filled with the non-Google category ids only when empty and there are categories; otherwise unchanged |
| HomePage.InitialVisibleSkipsGoogle | app/page.tsx:63-68 | every non-Google category becomes visible; the 'Google Calendar' category does not |
| HomePage.HidingLastCategoryRefills | app/page.tsx:63-68 | hiding the only visible category empties the set, and the effect then makes every non-Google category visible again |
| HomePage.InitialVisibleIdempotent | app/page.tsx:63-68 | re-running the effect changes nothing |
| HomePage.TrackedGoogleId | app/page.tsx:47-54 | with a user and a 'Google Calendar' category, the tracked id becomes the first such category's id; otherwise it is unchanged |
| HomePage.TrackedGoogleIdSettles | app/page.tsx:47-54 | the tracking effect settles after one run |
| HomePage.SelectedDateEvents | app/page.tsx:216-220 | empty without a selected day; otherwise exactly the events whose date is the day's key |
| HomePage.SelectedDayMatchesStartOnly | app/page.tsx:216-220 | an event is listed on a day exactly when it starts on that day |
| HomePage.ImportSparesOtherYears | app/page.tsx:141-148 | when the query snapshot agrees with the store and both years have four digits, the page's import never deletes a stored event whose date lies in another year |
| HomePage.Home.SelectedDayEvents | app/page.tsx:216-220 | `selectedDateEvents` over the page's year-filtered `events`: empty without a selection; otherwise the user's events keyed to that day and in the year range, so none when a four-digit selected day lies outside a four-digit selected year |
| HomePage.Home.constructor | app/page.tsx:16-41 | the page closes over the store, state, user, query result and selected year |
| HomePage.Home.InitVisibleCategories | app/page.tsx:63-68 | the visible set becomes InitialVisible of the user's categories |
| HomePage.Home.TrackGoogleCategory | app/page.tsx:47-54 | the tracked id becomes TrackedGoogleId of the user's categories |
| HomePage.Home.SaveEvent | app/page.tsx:71-101 | as the hook's handleSaveEvent |
| HomePage.Home.DeleteEvent | app/page.tsx:103-105 | removes exactly that event |
| HomePage.Home.SaveCategory | app/page.tsx:107-130 | as the hook's handleSaveCategory, including making a new category visible |
| HomePage.Home.DeleteCategory | app/page.tsx:132-139 | deletes and hides only the category; its events stay in the store |
| HomePage.Home.ImportGoogleEvents | app/page.tsx:141-165 | the hook's delete-then-write over the page's year-filtered events |
| HomePage.Home.CreateGoogleCategory | app/page.tsx:167-186 | find-or-create of 'Google Calendar' in '#4285F4' among the user's categories; never made visible. Without a user, or when the category is found, nothing is written and the tracked id is unchanged |
| HomePage.Home.ToggleCategory | app/page.tsx:188-198 | the visible set becomes Toggled |

## Left out

- Time of day, time zones and daylight saving are left out. A `Date` is a civil day at local midnight.
- The `Date` range limit (±8.64e15 ms) is left out.
- Invalid Dates are represented only as the None of `ParseDate`.
- DateUtils.ParseDate and JsString.NumberOf: `Number` is modelled only on digit strings. Other strings are None, although JavaScript also reads signs, whitespace, decimals and exponents. A key such as `2024-1-5` still parses, because its pieces are digit strings.
- Keyboard events: `preventDefault`, the `keydown` listener's registration and the deferred `querySelector(...).focus()` are left out. `HandleKeyDown` returns the selector of the cell to focus instead.
- Accessibility.HomeAndEndStayInMonth: not stated for focused years 0..99. There `new Date(y, m, 1)` reads the year as 1900+y, so Home and End leave the focused year; NextFocus models that through NewDate.
- HomePage.ImportSparesOtherYears: not stated for a stale query snapshot. The page deletes by the ids its `events` list, whatever the store now holds under them; years outside 1000..9999 are not stated either, because their keys do not sort by date.
- The focus trap (`hooks/useAccessibility.ts:10-99`) is DOM focus handling and is left out.
- DayCell: the CSS class strings and the click callback are left out. Only which conditional classes apply is modelled.
- Toasts, the confirmation dialog and `console.error` are left out. `CalendarActions.DeleteCategory` models only the confirmed branch. The confirmation and success message texts are not modelled, only the count they report.
- Transactions that fail (the `catch` branches) are left out. Every `db.transact` is modelled as succeeding.
- Store.PatchedEvent: an attribute written as `undefined` (description, endDate) is modelled as clearing the stored value. If the store drops undefined attributes instead, the old value would survive.
- Store.WriteAll: the same reading applies to the import's `update` of an id that survives the deletion. An incoming record without a description clears the stored one.
- CalendarActions.SaveEvent: both `Date.now()` calls of the create branch are modelled as the same instant. HomePage.Home.SaveEvent runs the same code and is modelled the same way.
- Store.Db.WriteIncoming: the import reads `Date.now()` twice per record, inside the `forEach`. The model takes one instant `now` for every record and for both fields. CalendarActions.ImportGoogleEvents and HomePage.Home.ImportGoogleEvents inherit this. Real timestamps may differ by a few milliseconds between records and between `createdAt` and `updatedAt`.
- Non-null assertions are taken as satisfied: `title!`, `date!`, `categoryId!`, `name!`, `color!`, and `id!` of imported events.
- `GOOGLE_CALENDAR_CATEGORY_NAME` and `GOOGLE_CALENDAR_COLOR` come from `lib/constants`, which is not part of this model. They are parameters of `CalendarActions.CreateGoogleCategory`. The page's literals are `HomePage.GoogleCalendarName` and `HomePage.GoogleBlue`.
- React scheduling is left out. Each state setter is applied at once, each effect runs when called, and stale closures are not modelled. A handler sees the `categories` and `events` lists of its render as parameters.
- The modal handlers of the hook and the page are left out: `handleDayClick`, `handleAddEvent`, `handleEditEvent`, `handleAddCategory`, `handleEditCategory`, the close handlers and `handleAddEventFromDayDetail`. They only open and close dialogs.
- `lib/googleCalendar.ts` (OAuth, network fetch) is not part of this model. The import's input is an arbitrary sequence of records.
- The mapping from Google events to records is not part of this model.
- `components/Header.tsx`, `components/Skeleton.tsx` and `contexts/ToastContext.tsx` are presentation only.
- JsString.LexLess: JavaScript compares strings by UTF-16 code unit; the model compares Unicode scalar values. The orders differ only when one string has a character at or above U+10000 and the other one in U+E000..U+FFFF. This can matter only for malformed `date` strings in HomePage.YearEvents; keys written by `formatDate` are ASCII.
- HomePage.InitialVisible: the effect runs again on every change of the categories or of the visible set. The model states one run, and HidingLastCategoryRefills one hide followed by one run. A user whose only category is 'Google Calendar' gets a fresh empty set on every run; the model does not distinguish a fresh empty set from the old one.
- DateUtils.GroupDatesByMonth: a JavaScript `Map` remembers the order its keys were inserted. The model's `map` does not, so only key membership and bucket contents are stated.
