/**
  The page component of app/page.tsx: the per-user and per-year filters over
  the query result, the two effects that initialise the visible categories
  and track the Google Calendar category, the page's own handlers, and the
  events of the selected day.
*/
module HomePage {
  import opened Wrappers
  import opened Calendar
  import opened JsString
  import opened DateUtils
  import opened Store
  import opened ViewState
  import CalendarActions

  /** The name and colour the page writes as literals. */
  const GoogleCalendarName: string := "Google Calendar"
  const GoogleBlue: string := "#4285F4"

  /** `allCategories.filter(c => c.userId === user?.id)`: with nobody signed in,
      `user?.id` is undefined and matches the records without an owner. */
  function UserCategories(all: seq<Category>, user: Option<string>): (r: seq<Category>)
    ensures forall c :: c in r <==> c in all && c.userId == user
  {
    Filter(all, (c: Category) => c.userId == user)
  }

  /** `${selectedYear}-01-01` and `${selectedYear}-12-31`. */
  function YearStart(year: int): string {
    IntToString(year) + "-01-01"
  }

  function YearEnd(year: int): string {
    IntToString(year) + "-12-31"
  }

  /** `date >= start && date <= end` on strings. */
  predicate InYearRange(date: string, year: int): (inRange: bool)
    ensures date == YearStart(year) ==> inRange
    ensures date == YearEnd(year) ==> inRange
  {
    var y := IntToString(year);
    LexLessConcat(y, "-12-31", y, "-01-01");
    assert !LexLess("-12-31", "-01-01") by {
      assert !LexLess("12-31", "01-01");
    }
    !LexLess(date, YearStart(year)) && !LexLess(YearEnd(year), date)
  }

  /** The page's `events`: the user's events whose date string lies between the year's bounds. */
  function YearEvents(all: seq<Event>, user: Option<string>, year: int): (r: seq<Event>)
    ensures forall e :: e in r <==> e in all && e.userId == user && InYearRange(e.date, year)
  {
    Filter(all, (e: Event) => e.userId == user && InYearRange(e.date, year))
  }

  /** For a four-digit year the bounds are the keys of January 1 and December 31. */
  lemma YearBoundsAreKeys(year: int)
    requires 1000 <= year <= 9999
    ensures YearStart(year) == FormatDate(Date(year, 1, 1))
    ensures YearEnd(year) == FormatDate(Date(year, 12, 31))
  {
    PaddedFields();
    var y := IntToString(year);
    assert FormatDate(Date(year, 1, 1)) == y + "-" + "01" + "-" + "01";
    assert FormatDate(Date(year, 12, 31)) == y + "-" + "12" + "-" + "31";
  }

  /** The padded month and day fields the bounds spell out. */
  lemma PaddedFields()
    ensures TwoDigits(1) == "01" && TwoDigits(12) == "12" && TwoDigits(31) == "31"
  {
    assert NatToString(1) == "1";
    assert NatToString(12) == "12" by {
      assert NatToString(1) == "1" && DigitChar(2) == '2';
    }
    assert NatToString(31) == "31" by {
      assert NatToString(3) == "3" && DigitChar(1) == '1';
    }
  }

  /** With four-digit years, the string comparison selects exactly the dates of the year. */
  lemma YearRangeIsYear(d: Date, year: int)
    requires ValidDate(d) && 1000 <= d.year <= 9999 && 1000 <= year <= 9999
    ensures InYearRange(FormatDate(d), year) <==> d.year == year
  {
    YearBoundsAreKeys(year);
    FormatDateOrder(d, Date(year, 1, 1));
    FormatDateOrder(Date(year, 12, 31), d);
    BetweenYearEnds(d, year);
  }

  /** A valid date lies between January 1 and December 31 of a year exactly when it is in that year. */
  lemma BetweenYearEnds(d: Date, year: int)
    requires ValidDate(d)
    ensures !Before(d, Date(year, 1, 1)) && !Before(Date(year, 12, 31), d) <==> d.year == year
  {
  }

  /** An event whose date key has a four-digit year is in the page's list exactly
      when it is the user's and starts in the selected year. */
  lemma YearEventsByStartYear(all: seq<Event>, user: Option<string>, year: int, e: Event, start: Date)
    requires ValidDate(start) && 1000 <= start.year <= 9999 && 1000 <= year <= 9999
    requires e.date == FormatDate(start)
    ensures e in YearEvents(all, user, year) <==> e in all && e.userId == user && start.year == year
  {
    YearRangeIsYear(start, year);
  }

  /** The ids of the categories not named 'Google Calendar'. */
  function NonGoogleIds(categories: seq<Category>): set<string> {
    set c | c in categories && c.name != GoogleCalendarName :: c.id
  }

  /** The visible set after the initialising effect: filled with the non-Google
      categories only when it is empty and there are categories. */
  function InitialVisible(categories: seq<Category>, visible: set<string>): (r: set<string>)
    ensures |categories| > 0 && |visible| == 0 ==> r == NonGoogleIds(categories)
    ensures |categories| == 0 || |visible| > 0 ==> r == visible
  {
    if |categories| > 0 && |visible| == 0 then NonGoogleIds(categories) else visible
  }

  /** Hiding the one visible category leaves the set empty, so the effect fills it
      again with every non-Google category: the user cannot hide them all. */
  lemma HidingLastCategoryRefills(categories: seq<Category>, id: string)
    requires |categories| > 0
    ensures Toggled({id}, id) == {}
    ensures InitialVisible(categories, Toggled({id}, id)) == NonGoogleIds(categories)
  {
    assert id !in Toggled({id}, id);
    assert Toggled({id}, id) == {};
  }

  /** When the effect fills the set, every category not named 'Google Calendar'
      becomes visible, and a category whose id only Google-named records carry does not. */
  lemma InitialVisibleSkipsGoogle(categories: seq<Category>, visible: set<string>)
    requires |categories| > 0 && |visible| == 0
    ensures forall c :: c in categories && c.name != GoogleCalendarName ==> c.id in InitialVisible(categories, visible)
    ensures forall c :: c in categories && (forall c' :: c' in categories && c'.id == c.id ==> c'.name == GoogleCalendarName) ==>
      c.id !in InitialVisible(categories, visible)
  {
  }

  /** Running the effect again leaves the set as the first run left it. */
  lemma InitialVisibleIdempotent(categories: seq<Category>, visible: set<string>)
    ensures InitialVisible(categories, InitialVisible(categories, visible)) == InitialVisible(categories, visible)
  {
  }

  /** The tracked Google category after the tracking effect: the first of the
      user's categories named 'Google Calendar', once a user is signed in. */
  function TrackedGoogleId(user: Option<string>, categories: seq<Category>, tracked: Option<string>): (r: Option<string>)
    ensures user.Some? && FindByName(categories, GoogleCalendarName).Some? ==>
      r == Some(FindByName(categories, GoogleCalendarName).value.id)
    ensures user.None? || FindByName(categories, GoogleCalendarName).None? ==> r == tracked
  {
    if user.Some? then
      var googleCat := FindByName(categories, GoogleCalendarName);
      if googleCat.Some? && Some(googleCat.value.id) != tracked then Some(googleCat.value.id) else tracked
    else tracked
  }

  /** The tracking effect settles after one run. */
  lemma TrackedGoogleIdSettles(user: Option<string>, categories: seq<Category>, tracked: Option<string>)
    ensures TrackedGoogleId(user, categories, TrackedGoogleId(user, categories, tracked)) == TrackedGoogleId(user, categories, tracked)
  {
  }

  /** `selectedDateEvents`: nothing without a selected day, otherwise the events
      whose `date` is the day's key. */
  function SelectedDateEvents(events: seq<Event>, selected: Option<Date>): (r: seq<Event>)
    requires selected.Some? ==> ValidDate(selected.value)
    ensures selected.None? ==> r == []
    ensures selected.Some? ==> forall e :: e in r <==> e in events && e.date == FormatDate(selected.value)
  {
    if selected.None? then []
    else
      var dateStr := FormatDate(selected.value);
      Filter(events, (e: Event) => e.date == dateStr)
  }

  /** A day lists an event exactly when the event starts on it: an event spanning
      several days appears only on its start date. */
  lemma SelectedDayMatchesStartOnly(events: seq<Event>, day: Date, e: Event, start: Date)
    requires ValidDate(day) && ValidDate(start) && 100 <= day.year && 100 <= start.year
    requires e.date == FormatDate(start)
    ensures e in SelectedDateEvents(events, Some(day)) <==> e in events && start == day
  {
    if FormatDate(start) == FormatDate(day) {
      FormatDateInjective(start, day);
    }
  }

  /** The page's import deletes only the category's events listed for the selected
      year: a stored event whose date key lies in another year survives. */
  lemma ImportSparesOtherYears(m: map<string, Event>, all: seq<Event>, user: Option<string>, year: int,
                               categoryId: string, d: Date)
    requires SnapshotAgrees(m, all)
    requires ValidDate(d) && 1000 <= d.year <= 9999 && 1000 <= year <= 9999 && d.year != year
    ensures forall id :: id in m && m[id].date == FormatDate(d) ==>
      id !in IdsOf(CategoryEvents(YearEvents(all, user, year), categoryId))
  {
    YearRangeIsYear(d, year);
    var doomed := IdsOf(CategoryEvents(YearEvents(all, user, year), categoryId));
    forall id | id in m && id in doomed
      ensures InYearRange(m[id].date, year)
    {
      var x :| x in CategoryEvents(YearEvents(all, user, year), categoryId) && x.id == id;
      assert m[x.id] == x;
    }
  }

  /** The page's state and what its render closes over: the store, the UI state,
      the signed-in user's id, the query result and the selected year. */
  class Home {
    const db: Db
    const state: CalendarState
    const user: Option<string>
    const allCategories: seq<Category>
    const allEvents: seq<Event>
    const selectedYear: int

    constructor (db: Db, state: CalendarState, user: Option<string>, allCategories: seq<Category>, allEvents: seq<Event>, selectedYear: int)
      ensures this.db == db && this.state == state && this.user == user
      ensures this.allCategories == allCategories && this.allEvents == allEvents && this.selectedYear == selectedYear
    {
      this.db := db;
      this.state := state;
      this.user := user;
      this.allCategories := allCategories;
      this.allEvents := allEvents;
      this.selectedYear := selectedYear;
    }

    /** The page's `categories`. */
    function Categories(): seq<Category> {
      UserCategories(allCategories, user)
    }

    /** The page's `events`. */
    function Events(): seq<Event> {
      YearEvents(allEvents, user, selectedYear)
    }

    /** The page's `selectedDateEvents`: the selected day's events among the
        year-filtered `events`, so only the user's events of the selected year. */
    function SelectedDayEvents(selected: Option<Date>): (r: seq<Event>)
      requires selected.Some? ==> ValidDate(selected.value)
      ensures selected.None? ==> r == []
      ensures selected.Some? ==> forall e :: e in r <==>
        e in allEvents && e.userId == user && e.date == FormatDate(selected.value) && InYearRange(e.date, selectedYear)
      ensures (selected.Some? && 1000 <= selected.value.year <= 9999 && 1000 <= selectedYear <= 9999
               && selected.value.year != selectedYear) ==> r == []
    {
      if selected.Some? && 1000 <= selected.value.year <= 9999 && 1000 <= selectedYear <= 9999 then
        YearRangeIsYear(selected.value, selectedYear);
        var r := SelectedDateEvents(Events(), selected);
        assert selected.value.year != selectedYear ==> forall e :: e !in r;
        assert |r| > 0 ==> r[0] in r;
        r
      else
        SelectedDateEvents(Events(), selected)
    }

    /** The initialising effect on the visible set. */
    method InitVisibleCategories()
      modifies state
      ensures state.visibleCategoryIds == InitialVisible(Categories(), old(state.visibleCategoryIds))
      ensures state.googleCalendarCategoryId == old(state.googleCalendarCategoryId)
    {
      var categories := Categories();
      if |categories| > 0 && |state.visibleCategoryIds| == 0 {
        state.SetVisibleCategoryIds(NonGoogleIds(categories));
      }
    }

    /** The effect that tracks the Google Calendar category. */
    method TrackGoogleCategory()
      modifies state
      ensures state.googleCalendarCategoryId == TrackedGoogleId(user, Categories(), old(state.googleCalendarCategoryId))
      ensures state.visibleCategoryIds == old(state.visibleCategoryIds)
    {
      if user.Some? {
        var googleCat := FindByName(Categories(), GoogleCalendarName);
        if googleCat.Some? && Some(googleCat.value.id) != state.googleCalendarCategoryId {
          state.SetGoogleCalendarCategoryId(Some(googleCat.value.id));
        }
      }
    }

    /** The page's `handleSaveEvent`, the same code as the hook's. */
    method SaveEvent(data: EventData, freshId: string, now: int)
      requires db.Valid() && freshId !in db.events
      modifies db
      ensures db.Valid() && db.categories == old(db.categories)
      ensures user.None? ==> db.events == old(db.events)
      ensures user.Some? && HasId(data.id) ==>
        db.events == old(db.events)[data.id.value := PatchedEvent(Lookup(old(db.events), data.id.value), data.id.value, data, now)]
      ensures user.Some? && !HasId(data.id) ==>
        db.events == old(db.events)[freshId := CreatedEvent(freshId, data, user.value, now)]
    {
      CalendarActions.SaveEvent(db, user, data, freshId, now);
    }

    /** The page's `handleDeleteEvent`. */
    method DeleteEvent(eventId: string)
      requires db.Valid()
      modifies db
      ensures db.Valid() && db.events == old(db.events) - {eventId} && db.categories == old(db.categories)
    {
      CalendarActions.DeleteEvent(db, eventId);
    }

    /** The page's `handleSaveCategory`, the same code as the hook's. */
    method SaveCategory(data: CategoryData, freshId: string, now: int)
      requires db.Valid() && freshId !in db.categories
      modifies db, state
      ensures db.Valid() && db.events == old(db.events)
      ensures state.googleCalendarCategoryId == old(state.googleCalendarCategoryId)
      ensures user.None? || HasId(data.id) ==> state.visibleCategoryIds == old(state.visibleCategoryIds)
      ensures user.None? ==> db.categories == old(db.categories)
      ensures user.Some? && HasId(data.id) ==>
        var id := data.id.value;
        db.categories == old(db.categories)[id := PatchedCategory(if id in old(db.categories) then Some(old(db.categories)[id]) else None, id, data)]
      ensures user.Some? && !HasId(data.id) ==>
        && db.categories == old(db.categories)[freshId := Category(freshId, data.name, data.color, user, Some(now))]
        && state.visibleCategoryIds == old(state.visibleCategoryIds) + {freshId}
    {
      CalendarActions.SaveCategory(db, state, user, data, freshId, now);
    }

    /** The page's `handleDeleteCategory`: deletes the category and hides it, but
        leaves its events in the store. */
    method DeleteCategory(categoryId: string)
      requires db.Valid()
      modifies db, state
      ensures db.Valid()
      ensures db.categories == old(db.categories) - {categoryId} && db.events == old(db.events)
      ensures state.visibleCategoryIds == old(state.visibleCategoryIds) - {categoryId}
      ensures state.googleCalendarCategoryId == old(state.googleCalendarCategoryId)
    {
      db.DeleteCategory(categoryId);
      state.HideCategory(categoryId);
    }

    /** The page's `handleImportGoogleEvents`: the hook's code over the page's
        year-filtered `events`, so only the selected year's events are replaced. */
    method ImportGoogleEvents(googleEvents: seq<IncomingEvent>, categoryId: string, now: int)
      requires db.Valid()
      modifies db
      ensures db.Valid() && db.categories == old(db.categories)
      ensures user.None? ==> db.events == old(db.events)
      ensures user.Some? ==>
        db.events == WriteAll(old(db.events) - IdsOf(CategoryEvents(Events(), categoryId)), googleEvents, user.value, now)
    {
      CalendarActions.ImportGoogleEvents(db, user, Events(), googleEvents, categoryId, now);
    }

    /** The page's `handleCreateGoogleCategory`: find-or-create of 'Google Calendar'
        in Google blue among the user's categories; never made visible. */
    method CreateGoogleCategory(freshId: string, now: int) returns (id: string)
      requires db.Valid() && freshId !in db.categories
      modifies db, state
      ensures db.Valid() && db.events == old(db.events)
      ensures state.visibleCategoryIds == old(state.visibleCategoryIds)
      ensures user.None? ==>
        && id == ""
        && db.categories == old(db.categories)
        && state.googleCalendarCategoryId == old(state.googleCalendarCategoryId)
      ensures user.Some? && FindByName(Categories(), GoogleCalendarName).Some? ==>
        && id == FindByName(Categories(), GoogleCalendarName).value.id
        && db.categories == old(db.categories)
        && state.googleCalendarCategoryId == old(state.googleCalendarCategoryId)
      ensures user.Some? && FindByName(Categories(), GoogleCalendarName).None? ==>
        && id == freshId
        && db.categories == old(db.categories)[freshId := Category(freshId, GoogleCalendarName, GoogleBlue, user, Some(now))]
        && state.googleCalendarCategoryId == Some(freshId)
    {
      id := CalendarActions.CreateGoogleCategory(db, state, user, Categories(), GoogleCalendarName, GoogleBlue, freshId, now);
    }

    /** The page's `handleToggleCategory`. */
    method ToggleCategory(categoryId: string)
      modifies state
      ensures state.visibleCategoryIds == Toggled(old(state.visibleCategoryIds), categoryId)
      ensures state.googleCalendarCategoryId == old(state.googleCalendarCategoryId)
    {
      state.ToggleCategory(categoryId);
    }
  }
}
