/** The calendar event record (src/types/calendar.ts). */
module CalendarTypes {
  import opened Wrappers
  import opened Time

  /**
   * A calendar event.  `userId` is optional because a caller may hand the
   * store a record built without one (the edit form does): the store keeps
   * whatever the record carries.
   */
  datatype Event = Event(
    id: string,
    userId: Option<string>,
    title: string,
    start: Instant,
    end: Instant,
    description: Option<string>,
    attendees: Option<seq<string>>,
    location: Option<string>)

  /** The fields a caller supplies to create an event: an `Event` without `id` and `userId`. */
  datatype EventData = EventData(
    title: string,
    start: Instant,
    end: Instant,
    description: Option<string>,
    attendees: Option<seq<string>>,
    location: Option<string>)

  /** An event whose interval is non-empty. */
  predicate WellFormed(e: Event) {
    e.start < e.end
  }
}
