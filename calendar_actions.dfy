/**
  The event and category handlers of hooks/useCalendarActions.ts. Each
  handler is a method over what its callback closes over: the store `db`, the
  UI `state`, the signed-in user's id (None when nobody is signed in) and the
  `categories` / `events` lists of the render that created it. Fresh ids
  (`uuidv4()`) and the clock (`Date.now()`) are parameters.
*/
module CalendarActions {
  import opened Wrappers
  import opened Store
  import opened ViewState

  /** `handleSaveEvent(eventData)`: with an id, merges the form's fields over the
      stored event; without one, creates a full event for the user under a fresh id. */
  method SaveEvent(db: Db, user: Option<string>, data: EventData, freshId: string, now: int)
    requires db.Valid() && freshId !in db.events
    modifies db
    ensures db.Valid() && db.categories == old(db.categories)
    ensures user.None? ==> db.events == old(db.events)
    ensures user.Some? && HasId(data.id) ==>
      db.events == old(db.events)[data.id.value := PatchedEvent(Lookup(old(db.events), data.id.value), data.id.value, data, now)]
    ensures user.Some? && !HasId(data.id) ==>
      db.events == old(db.events)[freshId := CreatedEvent(freshId, data, user.value, now)]
  {
    if user.None? {
      return;
    }
    if HasId(data.id) {
      db.PatchEvent(data.id.value, data, now);
    } else {
      db.PutEvent(CreatedEvent(freshId, data, user.value, now));
    }
  }

  /** `handleDeleteEvent(eventId)`; no user check. */
  method DeleteEvent(db: Db, eventId: string)
    requires db.Valid()
    modifies db
    ensures db.Valid() && db.events == old(db.events) - {eventId} && db.categories == old(db.categories)
  {
    db.DeleteEvent(eventId);
  }

  /** `handleSaveCategory(categoryData)`: with an id, renames and recolours the
      stored category; without one, creates it for the user under a fresh id
      and makes it visible. */
  method SaveCategory(db: Db, state: CalendarState, user: Option<string>, data: CategoryData, freshId: string, now: int)
    requires db.Valid() && freshId !in db.categories
    modifies db, state
    ensures db.Valid() && db.events == old(db.events)
    ensures state.googleCalendarCategoryId == old(state.googleCalendarCategoryId)
    ensures user.None? || HasId(data.id) ==> state.visibleCategoryIds == old(state.visibleCategoryIds)
    ensures user.None? ==> db.categories == old(db.categories)
    ensures user.Some? && HasId(data.id) ==>
      var id := data.id.value;
      db.categories == old(db.categories)[id := PatchedCategory(if id in old(db.categories) then Some(old(db.categories)[id]) else None, id, data)]
    ensures user.Some? && !HasId(data.id) ==>
      && db.categories == old(db.categories)[freshId := Category(freshId, data.name, data.color, user, Some(now))]
      && state.visibleCategoryIds == old(state.visibleCategoryIds) + {freshId}
  {
    if user.None? {
      return;
    }
    if HasId(data.id) {
      db.PatchCategory(data.id.value, data);
    } else {
      db.PutCategory(Category(freshId, data.name, data.color, user, Some(now)));
      state.ShowCategory(freshId);
    }
  }

  /** The confirmed branch of `handleDeleteCategory(categoryId)`: deletes the
      category's events listed in `events`, then the category, and hides it.
      Returns the event count the confirmation reports. */
  method DeleteCategory(db: Db, state: CalendarState, events: seq<Event>, categoryId: string) returns (eventCount: nat)
    requires db.Valid()
    modifies db, state
    ensures db.Valid()
    ensures db.events == old(db.events) - IdsOf(CategoryEvents(events, categoryId))
    ensures db.categories == old(db.categories) - {categoryId}
    ensures state.visibleCategoryIds == old(state.visibleCategoryIds) - {categoryId}
    ensures state.googleCalendarCategoryId == old(state.googleCalendarCategoryId)
    ensures eventCount == |CategoryEvents(events, categoryId)|
  {
    eventCount := db.DeleteCategoryEvents(events, categoryId);
    db.DeleteCategory(categoryId);
    state.HideCategory(categoryId);
  }

  /** `handleImportGoogleEvents(googleEvents, categoryId)`: deletes the category's
      events listed in `events`, then writes every incoming event under its own id. */
  method ImportGoogleEvents(db: Db, user: Option<string>, events: seq<Event>, googleEvents: seq<IncomingEvent>, categoryId: string, now: int)
    requires db.Valid()
    modifies db
    ensures db.Valid() && db.categories == old(db.categories)
    ensures user.None? ==> db.events == old(db.events)
    ensures user.Some? ==>
      db.events == WriteAll(old(db.events) - IdsOf(CategoryEvents(events, categoryId)), googleEvents, user.value, now)
  {
    if user.None? {
      return;
    }
    var _ := db.DeleteCategoryEvents(events, categoryId);
    db.WriteIncoming(googleEvents, user.value, now);
  }

  /** `handleCreateGoogleCategory()`: find-or-create of the category called `name`
      among `categories`. Returns '' with nobody signed in; the visible set never changes. */
  method CreateGoogleCategory(db: Db, state: CalendarState, user: Option<string>, categories: seq<Category>,
                              name: string, color: string, freshId: string, now: int)
    returns (id: string)
    requires db.Valid() && freshId !in db.categories
    modifies db, state
    ensures db.Valid() && db.events == old(db.events)
    ensures state.visibleCategoryIds == old(state.visibleCategoryIds)
    ensures user.None? ==>
      && id == ""
      && db.categories == old(db.categories)
      && state.googleCalendarCategoryId == old(state.googleCalendarCategoryId)
    ensures user.Some? && FindByName(categories, name).Some? ==>
      && id == FindByName(categories, name).value.id
      && db.categories == old(db.categories)
      && state.googleCalendarCategoryId == old(state.googleCalendarCategoryId)
    ensures user.Some? && FindByName(categories, name).None? ==>
      && id == freshId
      && db.categories == old(db.categories)[freshId := Category(freshId, name, color, user, Some(now))]
      && state.googleCalendarCategoryId == Some(freshId)
  {
    if user.None? {
      return "";
    }
    var existing := FindByName(categories, name);
    if existing.Some? {
      return existing.value.id;
    }
    db.PutCategory(Category(freshId, name, color, user, Some(now)));
    state.SetGoogleCalendarCategoryId(Some(freshId));
    id := freshId;
  }

  /** Find-or-create is idempotent: once the list shows what the first call left,
      a second call finds the category the first one returned and creates nothing. */
  lemma FindOrCreateIdempotent(categories: seq<Category>, name: string, color: string, user: string, freshId: string, now: int)
    ensures var found := FindByName(categories, name);
      var first := if found.Some? then found.value.id else freshId;
      var refreshed := if found.Some? then categories else categories + [Category(freshId, name, color, Some(user), Some(now))];
      FindByName(refreshed, name).Some? && FindByName(refreshed, name).value.id == first
  {
    if FindByName(categories, name).None? {
      var created := Category(freshId, name, color, Some(user), Some(now));
      var again := FindByName(categories + [created], name);
      assert created in categories + [created];
      assert again.value !in categories;
    }
  }

  /** `handleDeleteGoogleEvents(categoryId)`: deletes the category's events listed
      in `events` and hides the category, which itself stays. */
  method DeleteGoogleEvents(db: Db, state: CalendarState, events: seq<Event>, categoryId: string)
    requires db.Valid()
    modifies db, state
    ensures db.Valid()
    ensures db.events == old(db.events) - IdsOf(CategoryEvents(events, categoryId))
    ensures db.categories == old(db.categories)
    ensures state.visibleCategoryIds == old(state.visibleCategoryIds) - {categoryId}
    ensures state.googleCalendarCategoryId == old(state.googleCalendarCategoryId)
  {
    var _ := db.DeleteCategoryEvents(events, categoryId);
    state.HideCategory(categoryId);
  }

  /** `handleToggleCategory(categoryId)`. */
  method ToggleCategory(state: CalendarState, categoryId: string)
    modifies state
    ensures state.visibleCategoryIds == Toggled(old(state.visibleCategoryIds), categoryId)
    ensures state.googleCalendarCategoryId == old(state.googleCalendarCategoryId)
  {
    state.ToggleCategory(categoryId);
  }
}
