/**
  The UI state the handlers update: the set of category ids whose events are
  shown, and the id of the category that holds imported Google Calendar events.
  Each React state setter is one method.
*/
module ViewState {
  import opened Wrappers

  /** A copy of `visible` with `categoryId` deleted when present and added otherwise. */
  function Toggled(visible: set<string>, categoryId: string): (r: set<string>)
    ensures categoryId in r <==> categoryId !in visible
    ensures forall x :: x != categoryId ==> (x in r <==> x in visible)
  {
    if categoryId in visible then visible - {categoryId} else visible + {categoryId}
  }

  /** Toggling the same category twice shows exactly what was shown before. */
  lemma ToggleTwice(visible: set<string>, categoryId: string)
    ensures Toggled(Toggled(visible, categoryId), categoryId) == visible
  {
  }

  class CalendarState {
    var visibleCategoryIds: set<string>
    var googleCalendarCategoryId: Option<string>

    /** `useState(new Set())` and `useState(null)`. */
    constructor ()
      ensures visibleCategoryIds == {} && googleCalendarCategoryId.None?
    {
      visibleCategoryIds := {};
      googleCalendarCategoryId := None;
    }

    method SetVisibleCategoryIds(ids: set<string>)
      modifies this
      ensures visibleCategoryIds == ids && googleCalendarCategoryId == old(googleCalendarCategoryId)
    {
      visibleCategoryIds := ids;
    }

    /** `setVisibleCategoryIds(prev => new Set([...prev, id]))`. */
    method ShowCategory(categoryId: string)
      modifies this
      ensures visibleCategoryIds == old(visibleCategoryIds) + {categoryId}
      ensures googleCalendarCategoryId == old(googleCalendarCategoryId)
    {
      visibleCategoryIds := visibleCategoryIds + {categoryId};
    }

    /** `setVisibleCategoryIds(prev => { newSet.delete(id) })`. */
    method HideCategory(categoryId: string)
      modifies this
      ensures visibleCategoryIds == old(visibleCategoryIds) - {categoryId}
      ensures googleCalendarCategoryId == old(googleCalendarCategoryId)
    {
      visibleCategoryIds := visibleCategoryIds - {categoryId};
    }

    /** `handleToggleCategory(id)`: flips exactly that id. */
    method ToggleCategory(categoryId: string)
      modifies this
      ensures visibleCategoryIds == Toggled(old(visibleCategoryIds), categoryId)
      ensures googleCalendarCategoryId == old(googleCalendarCategoryId)
    {
      var newSet := visibleCategoryIds;
      if categoryId in newSet {
        newSet := newSet - {categoryId};
      } else {
        newSet := newSet + {categoryId};
      }
      visibleCategoryIds := newSet;
    }

    method SetGoogleCalendarCategoryId(id: Option<string>)
      modifies this
      ensures googleCalendarCategoryId == id && visibleCategoryIds == old(visibleCategoryIds)
    {
      googleCalendarCategoryId := id;
    }
  }
}
