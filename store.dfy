/**
  The InstantDB data the calendar keeps: events and categories, each stored
  under its id. A `db.transact` of one `delete` or `update` is one method of
  `Db`; `update` is an upsert that merges the given attributes over the stored
  record, or creates a record holding just those attributes.
*/
module Store {
  import opened Wrappers

  /** An event. `userId` and `createdAt` are absent on a record that an update
      of an unknown id created. Dates are `YYYY-MM-DD` keys. */
  datatype Event = Event(
    id: string,
    title: string,
    description: Option<string>,
    date: string,
    endDate: Option<string>,
    categoryId: string,
    userId: Option<string>,
    createdAt: Option<int>,
    updatedAt: Option<int>)

  datatype Category = Category(id: string, name: string, color: string, userId: Option<string>, createdAt: Option<int>)

  /** The `Partial<Event>` the event form hands over. The fields the handlers
      read with a non-null assertion (`title!`, `date!`, `categoryId!`) are present. */
  datatype EventData = EventData(
    id: Option<string>,
    title: string,
    description: Option<string>,
    date: string,
    endDate: Option<string>,
    categoryId: string)

  /** A `Partial<Event>` handed to the import; it carries its own id (`eventData.id!`). */
  datatype IncomingEvent = IncomingEvent(
    id: string,
    title: string,
    description: Option<string>,
    date: string,
    endDate: Option<string>,
    categoryId: string)

  /** The `Partial<Category>` the category form hands over. */
  datatype CategoryData = CategoryData(id: Option<string>, name: string, color: string)

  /** JavaScript truthiness of an optional id: `undefined` and `''` are false. */
  predicate HasId(id: Option<string>) {
    id.Some? && id.value != ""
  }

  /** Every record is stored under its own id. */
  predicate EventsKeyed(m: map<string, Event>) {
    forall id :: id in m ==> m[id].id == id
  }

  predicate CategoriesKeyed(m: map<string, Category>) {
    forall id :: id in m ==> m[id].id == id
  }

  function Lookup(m: map<string, Event>, id: string): Option<Event> {
    if id in m then Some(m[id]) else None
  }

  /** What `events[id].update({title, description, date, endDate, categoryId,
      updatedAt})` leaves under `id`: the form's fields merged over the stored
      record, which keeps its owner and creation time; with nothing stored, a
      record of just those fields. */
  function PatchedEvent(stored: Option<Event>, id: string, data: EventData, now: int): (e: Event)
    ensures e.id == id && e.updatedAt == Some(now)
    ensures e.title == data.title && e.description == data.description && e.date == data.date
    ensures e.endDate == data.endDate && e.categoryId == data.categoryId
    ensures stored.Some? ==> e.userId == stored.value.userId && e.createdAt == stored.value.createdAt
    ensures stored.None? ==> e.userId.None? && e.createdAt.None?
  {
    match stored
    case Some(s) =>
      s.(id := id, title := data.title, description := data.description, date := data.date,
         endDate := data.endDate, categoryId := data.categoryId, updatedAt := Some(now))
    case None =>
      Event(id, data.title, data.description, data.date, data.endDate, data.categoryId, None, None, Some(now))
  }

  /** The full record the create branch of `handleSaveEvent` writes: the fields an
      update would write, plus the owner and the creation time. */
  function CreatedEvent(id: string, data: EventData, userId: string, now: int): (e: Event)
    ensures e == PatchedEvent(None, id, data, now).(userId := Some(userId), createdAt := Some(now))
  {
    Event(id, data.title, data.description, data.date, data.endDate, data.categoryId, Some(userId), Some(now), Some(now))
  }

  /** The full record the import writes for one incoming event: the record the
      create branch would write for the same fields, under the incoming id. */
  function ImportedEvent(g: IncomingEvent, userId: string, now: int): (e: Event)
    ensures e == CreatedEvent(g.id, EventData(Some(g.id), g.title, g.description, g.date, g.endDate, g.categoryId), userId, now)
  {
    Event(g.id, g.title, g.description, g.date, g.endDate, g.categoryId, Some(userId), Some(now), Some(now))
  }

  /** What `categories[id].update({name, color})` leaves under `id`. */
  function PatchedCategory(stored: Option<Category>, id: string, data: CategoryData): (c: Category)
    ensures c.id == id && c.name == data.name && c.color == data.color
    ensures stored.Some? ==> c.userId == stored.value.userId && c.createdAt == stored.value.createdAt
    ensures stored.None? ==> c.userId.None? && c.createdAt.None?
  {
    match stored
    case Some(s) => s.(id := id, name := data.name, color := data.color)
    case None => Category(id, data.name, data.color, None, None)
  }

  /** `s.filter(keep)`: the elements `keep` accepts, in their order. */
  function Filter<T(!new)>(s: seq<T>, keep: T -> bool): (r: seq<T>)
    ensures forall x :: x in r <==> x in s && keep(x)
    ensures |r| <= |s|
  {
    if s == [] then []
    else
      var rest := Filter(s[..|s| - 1], keep);
      var last := s[|s| - 1];
      assert forall x :: x in s <==> x in s[..|s| - 1] || x == last by {
        assert s == s[..|s| - 1] + [last];
      }
      if keep(last) then rest + [last] else rest
  }

  /** `filter` walks the list in order: the last element is kept, once, at the end
      exactly when the test accepts it. */
  lemma FilterSnoc<T(!new)>(s: seq<T>, keep: T -> bool)
    requires |s| > 0
    ensures Filter(s, keep) == Filter(s[..|s| - 1], keep) + (if keep(s[|s| - 1]) then [s[|s| - 1]] else [])
  {
  }

  /** Filtering a concatenation filters each part and keeps them in order, so
      order and repetitions of the accepted elements are kept. */
  lemma {:induction false} FilterAppend<T(!new)>(a: seq<T>, b: seq<T>, keep: T -> bool)
    ensures Filter(a + b, keep) == Filter(a, keep) + Filter(b, keep)
    decreases |b|
  {
    if b == [] {
      assert a + b == a;
    } else {
      var n := |b| - 1;
      assert (a + b)[..|a + b| - 1] == a + b[..n];
      assert (a + b)[|a + b| - 1] == b[n];
      FilterSnoc(a + b, keep);
      FilterSnoc(b, keep);
      FilterAppend(a, b[..n], keep);
    }
  }

  /** A one-element list is kept whole or dropped whole. */
  lemma FilterSingleton<T(!new)>(x: T, keep: T -> bool)
    ensures Filter([x], keep) == if keep(x) then [x] else []
  {
    assert [x][..0] == [];
  }

  /** `events.filter(e => e.categoryId === categoryId)`. */
  function CategoryEvents(snapshot: seq<Event>, categoryId: string): (r: seq<Event>)
    ensures forall e :: e in r <==> e in snapshot && e.categoryId == categoryId
    ensures |r| <= |snapshot|
  {
    Filter(snapshot, (e: Event) => e.categoryId == categoryId)
  }

  /** The ids of a list of records. */
  function IdsOf(es: seq<Event>): set<string> {
    set e | e in es :: e.id
  }

  /** One more entry of a list adds its id to the ids of the prefix. */
  lemma IdsOfPrefix(es: seq<Event>, i: int)
    requires 0 <= i < |es|
    ensures IdsOf(es[..i + 1]) == IdsOf(es[..i]) + {es[i].id}
  {
    assert es[..i + 1] == es[..i] + [es[i]];
  }

  function IncomingIds(batch: seq<IncomingEvent>): set<string> {
    set g | g in batch :: g.id
  }

  /** No later entry of the batch has the id of entry `i`. */
  predicate LastWithId(batch: seq<IncomingEvent>, i: int)
    requires 0 <= i < |batch|
  {
    forall j :: i < j < |batch| ==> batch[j].id != batch[i].id
  }

  /** The store after the batch is written one record at a time, in order:
      the incoming ids join the stored ones, and ids outside the batch keep
      what they held. */
  function WriteAll(m: map<string, Event>, batch: seq<IncomingEvent>, userId: string, now: int): (r: map<string, Event>)
    ensures r.Keys == m.Keys + IncomingIds(batch)
    ensures forall id :: id in m && id !in IncomingIds(batch) ==> r[id] == m[id]
  {
    if batch == [] then m
    else
      var n := |batch| - 1;
      assert IncomingIds(batch) == IncomingIds(batch[..n]) + {batch[n].id} by {
        assert batch == batch[..n] + [batch[n]];
      }
      WriteAll(m, batch[..n], userId, now)[batch[n].id := ImportedEvent(batch[n], userId, now)]
  }

  /** Each incoming id ends up holding the record of its last entry in the batch. */
  lemma {:induction false} WriteAllLastWins(m: map<string, Event>, batch: seq<IncomingEvent>, userId: string, now: int, i: int)
    requires 0 <= i < |batch| && LastWithId(batch, i)
    ensures batch[i].id in WriteAll(m, batch, userId, now)
    ensures WriteAll(m, batch, userId, now)[batch[i].id] == ImportedEvent(batch[i], userId, now)
    decreases |batch|
  {
    var n := |batch| - 1;
    WriteAllStep(m, batch, userId, now);
    if i < n {
      LastWithIdInPrefix(batch, i);
      WriteAllLastWins(m, batch[..n], userId, now, i);
    }
  }

  /** Writing a batch is writing all but its last entry, then the last one. */
  lemma WriteAllStep(m: map<string, Event>, batch: seq<IncomingEvent>, userId: string, now: int)
    requires batch != []
    ensures var n := |batch| - 1;
      WriteAll(m, batch, userId, now) == WriteAll(m, batch[..n], userId, now)[batch[n].id := ImportedEvent(batch[n], userId, now)]
  {
  }

  /** An entry that is the last with its id stays so when the batch loses a later entry. */
  lemma LastWithIdInPrefix(batch: seq<IncomingEvent>, i: int)
    requires 0 <= i < |batch| - 1 && LastWithId(batch, i)
    ensures batch[..|batch| - 1][i] == batch[i] && batch[|batch| - 1].id != batch[i].id
    ensures LastWithId(batch[..|batch| - 1], i)
  {
    var prefix := batch[..|batch| - 1];
    forall j | i < j < |prefix|
      ensures prefix[j].id != prefix[i].id
    {
      assert prefix[j] == batch[j];
    }
  }

  /** Writing the batch keeps every record under its own id. */
  lemma {:induction false} WriteAllKeyed(m: map<string, Event>, batch: seq<IncomingEvent>, userId: string, now: int)
    requires EventsKeyed(m)
    ensures EventsKeyed(WriteAll(m, batch, userId, now))
  {
    if batch != [] {
      WriteAllKeyed(m, batch[..|batch| - 1], userId, now);
    }
  }

  /** The first category called `name` (`categories.find(c => c.name === name)`). */
  function FindByName(cats: seq<Category>, name: string): (r: Option<Category>)
    ensures r.Some? <==> exists c :: c in cats && c.name == name
    ensures r.Some? ==> r.value in cats && r.value.name == name
  {
    if cats == [] then None
    else if cats[0].name == name then Some(cats[0])
    else
      assert forall c :: c in cats <==> c == cats[0] || c in cats[1..] by {
        assert cats == [cats[0]] + cats[1..];
      }
      FindByName(cats[1..], name)
  }

  /** `find` returns the first category with the name, not just any. */
  lemma {:induction false} FindByNameFirst(cats: seq<Category>, name: string, i: int)
    requires 0 <= i < |cats| && cats[i].name == name
    requires forall j :: 0 <= j < i ==> cats[j].name != name
    ensures FindByName(cats, name) == Some(cats[i])
  {
    if i > 0 {
      assert cats[0].name != name;
      assert forall j :: 0 <= j < i - 1 ==> cats[1..][j].name != name by {
        forall j | 0 <= j < i - 1 ensures cats[1..][j].name != name {
          assert cats[1..][j] == cats[j + 1];
        }
      }
      FindByNameFirst(cats[1..], name, i - 1);
    }
  }

  /** The snapshot a handler closes over shows each stored event as it is stored. */
  predicate SnapshotAgrees(m: map<string, Event>, snapshot: seq<Event>) {
    forall e :: e in snapshot && e.id in m ==> m[e.id] == e
  }

  /** Deleting the ids of a category's events, read from an agreeing snapshot,
      touches no stored event of another category. */
  lemma OtherCategoriesUntouched(m: map<string, Event>, snapshot: seq<Event>, categoryId: string)
    requires SnapshotAgrees(m, snapshot)
    ensures forall id :: id in m && m[id].categoryId != categoryId ==>
      id in m - IdsOf(CategoryEvents(snapshot, categoryId)) && (m - IdsOf(CategoryEvents(snapshot, categoryId)))[id] == m[id]
  {
    var doomed := IdsOf(CategoryEvents(snapshot, categoryId));
    forall id | id in doomed && id in m
      ensures m[id].categoryId == categoryId
    {
      var e :| e in CategoryEvents(snapshot, categoryId) && e.id == id;
      assert m[e.id] == e;
    }
  }

  /** When the snapshot lists every stored event, no event of the category survives the deletion. */
  lemma DeletionIsComplete(m: map<string, Event>, snapshot: seq<Event>, categoryId: string)
    requires EventsKeyed(m)
    requires forall id :: id in m ==> m[id] in snapshot
    ensures forall id :: id in m - IdsOf(CategoryEvents(snapshot, categoryId)) ==>
      (m - IdsOf(CategoryEvents(snapshot, categoryId)))[id].categoryId != categoryId
  {
    var doomed := IdsOf(CategoryEvents(snapshot, categoryId));
    forall id | id in m && m[id].categoryId == categoryId
      ensures id in doomed
    {
      assert m[id] in CategoryEvents(snapshot, categoryId);
    }
  }

  /** The import's outcome: the category's listed events are gone unless the batch
      brings their id back, every incoming id holds the record of its last entry,
      and everything else keeps its record. */
  lemma ImportReplaces(m: map<string, Event>, snapshot: seq<Event>, categoryId: string,
                       batch: seq<IncomingEvent>, userId: string, now: int)
    ensures var doomed := IdsOf(CategoryEvents(snapshot, categoryId));
      var r := WriteAll(m - doomed, batch, userId, now);
      && (forall id :: id in doomed && id !in IncomingIds(batch) ==> id !in r)
      && (forall i :: 0 <= i < |batch| && LastWithId(batch, i) ==> batch[i].id in r && r[batch[i].id] == ImportedEvent(batch[i], userId, now))
      && (forall id :: id in m && id !in doomed && id !in IncomingIds(batch) ==> id in r && r[id] == m[id])
  {
    var doomed := IdsOf(CategoryEvents(snapshot, categoryId));
    forall i | 0 <= i < |batch| && LastWithId(batch, i)
      ensures var r := WriteAll(m - doomed, batch, userId, now);
        batch[i].id in r && r[batch[i].id] == ImportedEvent(batch[i], userId, now)
    {
      WriteAllLastWins(m - doomed, batch, userId, now, i);
    }
  }

  /** Importing the same batch again, with the same snapshot and time, changes nothing. */
  lemma {:induction false} WriteAllIdempotent(m: map<string, Event>, batch: seq<IncomingEvent>, userId: string, now: int)
    ensures WriteAll(WriteAll(m, batch, userId, now), batch, userId, now) == WriteAll(m, batch, userId, now)
  {
    var once := WriteAll(m, batch, userId, now);
    var twice := WriteAll(once, batch, userId, now);
    assert twice.Keys == once.Keys;
    forall id | id in twice
      ensures twice[id] == once[id]
    {
      if id in IncomingIds(batch) {
        var i := LastIndexOf(batch, id);
        WriteAllLastWins(m, batch, userId, now, i);
        WriteAllLastWins(once, batch, userId, now, i);
      }
    }
  }

  /** The index of the last entry of the batch with id `id`. */
  function LastIndexOf(batch: seq<IncomingEvent>, id: string): (i: int)
    requires id in IncomingIds(batch)
    ensures 0 <= i < |batch| && batch[i].id == id && LastWithId(batch, i)
  {
    var n := |batch| - 1;
    if batch[n].id == id then n
    else
      assert id in IncomingIds(batch[..n]) by {
        var g :| g in batch && g.id == id;
        var k :| 0 <= k < |batch| && batch[k] == g;
        assert batch[..n][k] == g;
      }
      LastIndexOf(batch[..n], id)
  }

  /** The store: a map per namespace. */
  class Db {
    var events: map<string, Event>
    var categories: map<string, Category>

    ghost predicate Valid()
      reads this
    {
      EventsKeyed(events) && CategoriesKeyed(categories)
    }

    constructor ()
      ensures Valid() && events == map[] && categories == map[]
    {
      events := map[];
      categories := map[];
    }

    /** `events[id].delete()`; deleting an id that is not stored does nothing. */
    method DeleteEvent(id: string)
      requires Valid()
      modifies this
      ensures Valid()
      ensures events == old(events) - {id} && categories == old(categories)
    {
      events := events - {id};
    }

    /** `events[id].update({...})` with the form's fields. */
    method PatchEvent(id: string, data: EventData, now: int)
      requires Valid()
      modifies this
      ensures Valid()
      ensures events == old(events)[id := PatchedEvent(Lookup(old(events), id), id, data, now)]
      ensures categories == old(categories)
    {
      events := events[id := PatchedEvent(Lookup(events, id), id, data, now)];
    }

    /** `events[e.id].update(e)` with every attribute given: the record is replaced. */
    method PutEvent(e: Event)
      requires Valid()
      modifies this
      ensures Valid()
      ensures events == old(events)[e.id := e] && categories == old(categories)
    {
      events := events[e.id := e];
    }

    method DeleteCategory(id: string)
      requires Valid()
      modifies this
      ensures Valid()
      ensures categories == old(categories) - {id} && events == old(events)
    {
      categories := categories - {id};
    }

    /** `categories[id].update({name, color})`. */
    method PatchCategory(id: string, data: CategoryData)
      requires Valid()
      modifies this
      ensures Valid()
      ensures categories == old(categories)[id := PatchedCategory(if id in old(categories) then Some(old(categories)[id]) else None, id, data)]
      ensures events == old(events)
    {
      categories := categories[id := PatchedCategory(if id in categories then Some(categories[id]) else None, id, data)];
    }

    method PutCategory(c: Category)
      requires Valid()
      modifies this
      ensures Valid()
      ensures categories == old(categories)[c.id := c] && events == old(events)
    {
      categories := categories[c.id := c];
    }

    /** The `forEach` that deletes, one transaction at a time, every event of the
        snapshot in category `categoryId`; returns how many the snapshot listed. */
    method DeleteCategoryEvents(snapshot: seq<Event>, categoryId: string) returns (count: nat)
      requires Valid()
      modifies this
      ensures Valid()
      ensures events == old(events) - IdsOf(CategoryEvents(snapshot, categoryId))
      ensures categories == old(categories)
      ensures count == |CategoryEvents(snapshot, categoryId)|
    {
      var doomed := CategoryEvents(snapshot, categoryId);
      for i := 0 to |doomed|
        invariant Valid() && categories == old(categories)
        invariant events == old(events) - IdsOf(doomed[..i])
      {
        IdsOfPrefix(doomed, i);
        DeleteEvent(doomed[i].id);
      }
      assert doomed[..|doomed|] == doomed;
      count := |doomed|;
    }

    /** The `forEach` that writes the batch, one transaction per record. */
    method WriteIncoming(batch: seq<IncomingEvent>, userId: string, now: int)
      requires Valid()
      modifies this
      ensures Valid()
      ensures events == WriteAll(old(events), batch, userId, now) && categories == old(categories)
    {
      for i := 0 to |batch|
        invariant Valid() && categories == old(categories)
        invariant events == WriteAll(old(events), batch[..i], userId, now)
      {
        assert batch[..i + 1][..i] == batch[..i];
        PutEvent(ImportedEvent(batch[i], userId, now));
      }
      assert batch[..|batch|] == batch;
    }
  }
}
