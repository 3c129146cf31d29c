/**
 * The calendar store (src/store/calendarStore.ts): the list of events and the
 * selected date, the owner-guarded add/update/delete actions, month and year
 * navigation, and the persisted form of the events (timestamps as ISO-8601
 * strings) with its rehydration.
 *
 * The signed-in user's id, which the source reads from the auth store, and
 * the fresh id that `crypto.randomUUID()` would produce are parameters.
 */
module CalendarStore {
  import opened Wrappers
  import opened Time
  import opened Civil
  import opened IsoDate
  import opened CalendarTypes

  // ---------------------------------------------------------------------------
  // Ownership

  /** `if (!userId) return state`: no user, or a user whose id is "", counts as signed out. */
  predicate SignedIn(currentUserId: Option<string>) {
    currentUserId.Some? && currentUserId.value != ""
  }

  /** `event.id === id && event.userId === userId` */
  predicate OwnedBy(e: Event, id: string, currentUserId: Option<string>) {
    e.id == id && e.userId == currentUserId
  }

  predicate HasId(es: seq<Event>, id: string) {
    exists e :: e in es && e.id == id
  }

  predicate DistinctIds(es: seq<Event>) {
    forall i, j :: 0 <= i < j < |es| ==> es[i].id != es[j].id
  }

  /** `{ ...event, id, userId }` */
  function Stamp(data: EventData, id: string, userId: string): Event {
    Event(id, Some(userId), data.title, data.start, data.end, data.description, data.attendees, data.location)
  }

  // ---------------------------------------------------------------------------
  // The three event actions on the list of events

  /** `addEvent`: append the event under a fresh id, stamped with the signed-in user. */
  function AddOwned(events: seq<Event>, data: EventData, currentUserId: Option<string>, freshId: string): (r: seq<Event>)
    ensures !SignedIn(currentUserId) ==> r == events
    ensures SignedIn(currentUserId) ==>
      && |r| == |events| + 1 && r[..|events|] == events
      && r[|events|].id == freshId && r[|events|].userId == currentUserId
      && r[|events|].start == data.start && r[|events|].end == data.end && r[|events|].title == data.title
      && r[|events|].description == data.description && r[|events|].attendees == data.attendees
      && r[|events|].location == data.location
  {
    if !SignedIn(currentUserId) then events
    else events + [Stamp(data, freshId, currentUserId.value)]
  }

  /**
   * `updateEvent`: every event with the record's id that the signed-in user
   * owns is replaced by the record as given.
   */
  function ReplaceOwned(events: seq<Event>, updated: Event, currentUserId: Option<string>): (r: seq<Event>)
    ensures |r| == |events|
    ensures forall i :: 0 <= i < |events| && SignedIn(currentUserId) && OwnedBy(events[i], updated.id, currentUserId)
              ==> r[i] == updated
    ensures forall i :: 0 <= i < |events| && !(SignedIn(currentUserId) && OwnedBy(events[i], updated.id, currentUserId))
              ==> r[i] == events[i]
  {
    if !SignedIn(currentUserId) then events
    else seq(|events|, i requires 0 <= i < |events| =>
                         if OwnedBy(events[i], updated.id, currentUserId) then updated else events[i])
  }

  /** The events that are not `id` owned by `owner`, in their order. */
  function KeepNotOwned(events: seq<Event>, id: string, owner: Option<string>): (r: seq<Event>)
    ensures |r| <= |events|
    ensures forall e :: e in r <==> e in events && !OwnedBy(e, id, owner)
  {
    if events == [] then []
    else
      assert events == [events[0]] + events[1..];
      (if OwnedBy(events[0], id, owner) then [] else [events[0]]) + KeepNotOwned(events[1..], id, owner)
  }

  /** `deleteEvent`: drop the events with this id that the signed-in user owns. */
  function DeleteOwned(events: seq<Event>, id: string, currentUserId: Option<string>): (r: seq<Event>)
    ensures !SignedIn(currentUserId) ==> r == events
    ensures SignedIn(currentUserId) ==> forall e :: e in r <==> e in events && !OwnedBy(e, id, currentUserId)
    ensures SignedIn(currentUserId) ==> r == KeepNotOwned(events, id, currentUserId)
  {
    if !SignedIn(currentUserId) then events else KeepNotOwned(events, id, currentUserId)
  }

  lemma {:induction false} KeepNotOwnedConcat(a: seq<Event>, b: seq<Event>, id: string, owner: Option<string>)
    ensures KeepNotOwned(a + b, id, owner) == KeepNotOwned(a, id, owner) + KeepNotOwned(b, id, owner)
  {
    if a == [] {
      assert a + b == b;
    } else {
      assert (a + b)[1..] == a[1..] + b;
      KeepNotOwnedConcat(a[1..], b, id, owner);
    }
  }

  /** Filtering out an id nobody owns leaves the list unchanged. */
  lemma {:induction false} KeepNotOwnedNothingOwned(events: seq<Event>, id: string, owner: Option<string>)
    requires forall e :: e in events ==> !OwnedBy(e, id, owner)
    ensures KeepNotOwned(events, id, owner) == events
  {
    if events != [] {
      assert events == [events[0]] + events[1..];
      KeepNotOwnedNothingOwned(events[1..], id, owner);
    }
  }

  /** Deleting keeps the surviving events distinct by id. */
  lemma {:induction false} KeepNotOwnedDistinct(events: seq<Event>, id: string, owner: Option<string>)
    requires DistinctIds(events)
    ensures DistinctIds(KeepNotOwned(events, id, owner))
  {
    if events != [] {
      var rest := events[1..];
      assert DistinctIds(rest) by {
        forall i, j | 0 <= i < j < |rest| ensures rest[i].id != rest[j].id {
          assert rest[i] == events[i + 1] && rest[j] == events[j + 1];
        }
      }
      KeepNotOwnedDistinct(rest, id, owner);
      var kept := KeepNotOwned(rest, id, owner);
      if !OwnedBy(events[0], id, owner) {
        var r := [events[0]] + kept;
        forall i, j | 0 <= i < j < |r| ensures r[i].id != r[j].id {
          if i == 0 {
            assert r[j] in rest;
            var k :| 0 <= k < |rest| && rest[k] == r[j];
            assert events[k + 1] == r[j];
          } else {
            assert r[i] == kept[i - 1] && r[j] == kept[j - 1];
          }
        }
      }
    }
  }

  // ---------------------------------------------------------------------------
  // What the actions promise

  /** Signed out, every event action leaves the list as it was. */
  lemma SignedOutChangesNothing(events: seq<Event>, data: EventData, updated: Event, id: string,
                                currentUserId: Option<string>, freshId: string)
    requires !SignedIn(currentUserId)
    ensures AddOwned(events, data, currentUserId, freshId) == events
    ensures ReplaceOwned(events, updated, currentUserId) == events
    ensures DeleteOwned(events, id, currentUserId) == events
  {
  }

  /** Adding under an id no event has keeps the ids distinct. */
  lemma AddKeepsDistinctIds(events: seq<Event>, data: EventData, currentUserId: Option<string>, freshId: string)
    requires DistinctIds(events) && !HasId(events, freshId)
    ensures DistinctIds(AddOwned(events, data, currentUserId, freshId))
  {
    var r := AddOwned(events, data, currentUserId, freshId);
    if SignedIn(currentUserId) {
      forall i, j | 0 <= i < j < |r| ensures r[i].id != r[j].id {
        if j == |events| {
          assert r[i] == events[i];
        } else {
          assert r[i] == events[i] && r[j] == events[j];
        }
      }
    }
  }

  /** The owner deleting an event just added under a fresh id gets the old list back. */
  lemma AddThenDelete(events: seq<Event>, data: EventData, currentUserId: Option<string>, freshId: string)
    requires !HasId(events, freshId)
    ensures DeleteOwned(AddOwned(events, data, currentUserId, freshId), freshId, currentUserId) == events
  {
    if SignedIn(currentUserId) {
      var added := Stamp(data, freshId, currentUserId.value);
      KeepNotOwnedConcat(events, [added], freshId, currentUserId);
      KeepNotOwnedNothingOwned(events, freshId, currentUserId);
      assert KeepNotOwned([added], freshId, currentUserId) == [];
    }
  }

  /** An update never changes which id sits at which position, so distinct ids stay distinct. */
  lemma UpdateKeepsIds(events: seq<Event>, updated: Event, currentUserId: Option<string>)
    ensures var r := ReplaceOwned(events, updated, currentUserId);
      forall i :: 0 <= i < |events| ==> r[i].id == events[i].id
    ensures DistinctIds(events) ==> DistinctIds(ReplaceOwned(events, updated, currentUserId))
  {
  }

  /** Updating an id the signed-in user does not own (absent, or someone else's) changes nothing. */
  lemma UpdateNotOwnedChangesNothing(events: seq<Event>, updated: Event, currentUserId: Option<string>)
    requires forall e :: e in events ==> !OwnedBy(e, updated.id, currentUserId)
    ensures ReplaceOwned(events, updated, currentUserId) == events
  {
  }

  /**
   * The store does not re-stamp the owner: a record whose `userId` is not the
   * signed-in user's (as the edit form sends, with no `userId` at all) is
   * stored as given, after which the user owns no event with that id, so
   * further updates and deletes of it by that user change nothing.
   */
  lemma UpdateWithoutOwnerOrphans(events: seq<Event>, updated: Event, again: Event, currentUserId: Option<string>)
    requires SignedIn(currentUserId) && updated.userId != currentUserId && again.id == updated.id
    ensures var r := ReplaceOwned(events, updated, currentUserId);
      && (forall e :: e in r ==> !OwnedBy(e, updated.id, currentUserId))
      && DeleteOwned(r, updated.id, currentUserId) == r
      && ReplaceOwned(r, again, currentUserId) == r
  {
    var r := ReplaceOwned(events, updated, currentUserId);
    forall e | e in r ensures !OwnedBy(e, updated.id, currentUserId) {
      var i :| 0 <= i < |r| && r[i] == e;
    }
    KeepNotOwnedNothingOwned(r, updated.id, currentUserId);
  }

  /** A record carrying the owner's id replaces an owned event with that id, and the owner can delete it afterwards. */
  lemma UpdateByOwnerThenDelete(events: seq<Event>, updated: Event, currentUserId: Option<string>)
    requires SignedIn(currentUserId) && updated.userId == currentUserId
    ensures updated !in DeleteOwned(ReplaceOwned(events, updated, currentUserId), updated.id, currentUserId)
    ensures (exists e :: e in events && OwnedBy(e, updated.id, currentUserId))
            ==> updated in ReplaceOwned(events, updated, currentUserId)
  {
    var r := ReplaceOwned(events, updated, currentUserId);
    if exists e :: e in events && OwnedBy(e, updated.id, currentUserId) {
      var e :| e in events && OwnedBy(e, updated.id, currentUserId);
      var i :| 0 <= i < |events| && events[i] == e;
      assert r[i] == updated;
    }
  }

  /** Deleting removes every owned event with the id and nothing else; a second delete changes nothing. */
  lemma DeleteIdempotent(events: seq<Event>, id: string, currentUserId: Option<string>)
    ensures var r := DeleteOwned(events, id, currentUserId);
      DeleteOwned(r, id, currentUserId) == r
  {
    var r := DeleteOwned(events, id, currentUserId);
    if SignedIn(currentUserId) {
      KeepNotOwnedNothingOwned(r, id, currentUserId);
    }
  }

  /** Deleting keeps ids distinct. */
  lemma DeleteKeepsDistinctIds(events: seq<Event>, id: string, currentUserId: Option<string>)
    requires DistinctIds(events)
    ensures DistinctIds(DeleteOwned(events, id, currentUserId))
  {
    if SignedIn(currentUserId) {
      KeepNotOwnedDistinct(events, id, currentUserId);
    }
  }

  // ---------------------------------------------------------------------------
  // Month and year navigation (date-fns addMonths / addYears)

  function Min(a: int, b: int): int {
    if a <= b then a else b
  }

  /**
   * The calendar date `n` months after `d`: the same day of the month, or the
   * last day of the target month when that month is shorter.
   */
  function MonthShift(d: Date, n: int): (r: Date)
    requires ValidDate(d)
    ensures ValidDate(r)
    ensures r.year * 12 + r.month == d.year * 12 + d.month + n
    ensures r.day == Min(d.day, DaysInMonth(r.year, r.month))
  {
    var total := d.year * 12 + (d.month - 1) + n;
    var year := total / 12;
    var month := total % 12 + 1;
    Date(year, month, Min(d.day, DaysInMonth(year, month)))
  }

  /** `addMonths(t, n)`: the local date moved by `n` months, the time of day kept. */
  function AddMonths(t: int, n: int, zone: int): (r: int)
    ensures TimeOfDay(r, zone) == TimeOfDay(t, zone)
    ensures CivilFromDays(LocalDay(r, zone)) == MonthShift(CivilFromDays(LocalDay(t, zone)), n)
  {
    var target := MonthShift(CivilFromDays(LocalDay(t, zone)), n);
    CivilFromDaysOfCivil(target);
    AddDays(t, DaysFromCivil(target) - LocalDay(t, zone))
  }

  /** Two dates with the same year, month and day number are one date. */
  lemma MonthIndexInjective(a: Date, b: Date)
    requires ValidDate(a) && ValidDate(b)
    requires a.year * 12 + a.month == b.year * 12 + b.month && a.day == b.day
    ensures a == b
  {
  }

  /** Moving forward and back again by months is the identity on days 1 to 28. */
  lemma AddMonthsInverse(t: int, n: int, zone: int)
    requires CivilFromDays(LocalDay(t, zone)).day <= 28
    ensures AddMonths(AddMonths(t, n, zone), -n, zone) == t
  {
    var d := CivilFromDays(LocalDay(t, zone));
    var t1 := AddMonths(t, n, zone);
    var d1 := MonthShift(d, n);
    var d2 := MonthShift(d1, -n);
    MonthIndexInjective(d2, d);
    assert LocalDay(t1, zone) == DaysFromCivil(d1);
  }

  // ---------------------------------------------------------------------------
  // The persisted form

  /** An event as `partialize` stores it: the timestamps as `toISOString()` text. */
  datatype StoredEvent = StoredEvent(
    id: string,
    userId: Option<string>,
    title: string,
    start: string,
    end: string,
    description: Option<string>,
    attendees: Option<seq<string>>,
    location: Option<string>)

  function EncodeEvent(e: Event): StoredEvent {
    StoredEvent(e.id, e.userId, e.title, ToIsoString(e.start), ToIsoString(e.end),
                e.description, e.attendees, e.location)
  }

  /** `partialize`: each event with its timestamps written as ISO-8601 text. */
  function EncodeEvents(es: seq<Event>): (r: seq<StoredEvent>)
    ensures |r| == |es|
    ensures forall i :: 0 <= i < |es| ==> r[i] == EncodeEvent(es[i])
  {
    seq(|es|, i requires 0 <= i < |es| => EncodeEvent(es[i]))
  }

  /** `{ ...event, start: new Date(event.start), end: new Date(event.end) }`, for the text `toISOString` writes. */
  function DecodeEvent(s: StoredEvent): (r: Option<Event>)
    ensures r.Some? <==> ParseIsoString(s.start).Some? && ParseIsoString(s.end).Some?
    ensures r.Some? ==>
      && r.value.id == s.id && r.value.userId == s.userId && r.value.title == s.title
      && r.value.start == ParseIsoString(s.start).value && r.value.end == ParseIsoString(s.end).value
      && r.value.description == s.description && r.value.attendees == s.attendees
      && r.value.location == s.location
  {
    match (ParseIsoString(s.start), ParseIsoString(s.end))
    case (Some(start), Some(end)) =>
      Some(Event(s.id, s.userId, s.title, start, end, s.description, s.attendees, s.location))
    case _ => None
  }

  /** The rehydrated events: `None` when a stored timestamp is not in `toISOString` form. */
  function DecodeEvents(ss: seq<StoredEvent>): (r: Option<seq<Event>>)
    ensures r.Some? <==> forall i :: 0 <= i < |ss| ==> DecodeEvent(ss[i]).Some?
    ensures r.Some? ==> |r.value| == |ss| && forall i :: 0 <= i < |ss| ==> DecodeEvent(ss[i]) == Some(r.value[i])
  {
    if ss == [] then Some([])
    else
      match (DecodeEvent(ss[0]), DecodeEvents(ss[1..]))
      case (Some(e), Some(rest)) =>
        assert forall i :: 1 <= i < |ss| ==> ss[i] == ss[1..][i - 1];
        Some([e] + rest)
      case (None, _) => None
      case (_, None) =>
        assert forall i :: 1 <= i < |ss| ==> ss[i] == ss[1..][i - 1];
        None
  }

  lemma DecodeEncodeEvent(e: Event)
    ensures DecodeEvent(EncodeEvent(e)) == Some(e)
  {
    ParseToIsoString(e.start);
    ParseToIsoString(e.end);
  }

  /** Persisting and rehydrating gives back exactly the events that were stored. */
  lemma DecodeEncodeEvents(es: seq<Event>)
    ensures DecodeEvents(EncodeEvents(es)) == Some(es)
  {
    var ss := EncodeEvents(es);
    forall i | 0 <= i < |ss| ensures DecodeEvent(ss[i]) == Some(es[i]) {
      DecodeEncodeEvent(es[i]);
    }
    var r := DecodeEvents(ss);
    assert r.Some?;
    assert r.value == es;
  }

  // ---------------------------------------------------------------------------
  // The store

  datatype Direction = Prev | Next

  function Step(direction: Direction): int {
    if direction == Next then 1 else -1
  }

  class Store {
    var events: seq<Event>
    var selectedDate: int

    /** The initial state: no events, today selected. */
    constructor (today: int)
      ensures events == [] && selectedDate == today
    {
      events := [];
      selectedDate := today;
    }

    method SetSelectedDate(date: int)
      modifies this
      ensures selectedDate == date && events == old(events)
    {
      selectedDate := date;
    }

    method AddEvent(event: EventData, currentUserId: Option<string>, freshId: string)
      modifies this
      ensures events == AddOwned(old(events), event, currentUserId, freshId)
      ensures selectedDate == old(selectedDate)
    {
      if !SignedIn(currentUserId) {
        return;
      }
      events := events + [Stamp(event, freshId, currentUserId.value)];
    }

    method UpdateEvent(updatedEvent: Event, currentUserId: Option<string>)
      modifies this
      ensures events == ReplaceOwned(old(events), updatedEvent, currentUserId)
      ensures selectedDate == old(selectedDate)
    {
      if !SignedIn(currentUserId) {
        return;
      }
      events := ReplaceOwned(events, updatedEvent, currentUserId);
    }

    method DeleteEvent(id: string, currentUserId: Option<string>)
      modifies this
      ensures events == DeleteOwned(old(events), id, currentUserId)
      ensures selectedDate == old(selectedDate)
    {
      if !SignedIn(currentUserId) {
        return;
      }
      events := KeepNotOwned(events, id, currentUserId);
    }

    method NavigateMonth(direction: Direction, zone: int)
      modifies this
      ensures selectedDate == AddMonths(old(selectedDate), Step(direction), zone)
      ensures events == old(events)
    {
      selectedDate := AddMonths(selectedDate, Step(direction), zone);
    }

    method NavigateYear(direction: Direction, zone: int)
      modifies this
      ensures selectedDate == AddMonths(old(selectedDate), 12 * Step(direction), zone)
      ensures events == old(events)
    {
      selectedDate := AddMonths(selectedDate, 12 * Step(direction), zone);
    }

    /** The persisted part of the state: only the events, timestamps as text. */
    method Partialize() returns (stored: seq<StoredEvent>)
      ensures stored == EncodeEvents(events)
      ensures DecodeEvents(stored) == Some(events)
    {
      stored := EncodeEvents(events);
      DecodeEncodeEvents(events);
    }

    /**
     * `onRehydrateStorage`: when stored events are present, they replace the
     * events with their timestamps parsed back; `loaded` says whether that
     * happened.
     */
    method Rehydrate(stored: Option<seq<StoredEvent>>) returns (loaded: bool)
      modifies this
      ensures loaded <==> stored.Some? && DecodeEvents(stored.value).Some?
      ensures loaded ==> events == DecodeEvents(stored.value).value
      ensures !loaded ==> events == old(events)
      ensures selectedDate == old(selectedDate)
    {
      if stored.None? {
        return false;
      }
      var decoded := DecodeEvents(stored.value);
      if decoded.None? {
        return false;
      }
      events := decoded.value;
      return true;
    }
  }
}
