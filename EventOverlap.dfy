/** Conflict detection between a candidate event and existing events (src/utils/eventOverlap.ts). */
module EventOverlap {
  import opened CalendarTypes

  /**
   * The three-clause test of the source: the new start lies in
   * [existingStart, existingEnd), or the new end lies in
   * (existingStart, existingEnd], or the new interval covers the existing one.
   */
  predicate Overlaps(newStart: int, newEnd: int, existingStart: int, existingEnd: int) {
    || (newStart >= existingStart && newStart < existingEnd)
    || (newEnd > existingStart && newEnd <= existingEnd)
    || (newStart <= existingStart && newEnd >= existingEnd)
  }

  /** For non-empty intervals the test is exactly "the half-open intervals intersect". */
  lemma OverlapsIffIntersect(newStart: int, newEnd: int, existingStart: int, existingEnd: int)
    requires newStart < newEnd && existingStart < existingEnd
    ensures Overlaps(newStart, newEnd, existingStart, existingEnd) <==> newStart < existingEnd && existingStart < newEnd
  {
  }

  /** Intervals that only touch at an endpoint are not reported. */
  lemma TouchingIsNotOverlap(newStart: int, newEnd: int, existingStart: int, existingEnd: int)
    requires newStart < newEnd && existingStart < existingEnd
    requires newEnd == existingStart || newStart == existingEnd
    ensures !Overlaps(newStart, newEnd, existingStart, existingEnd)
  {
  }

  /** An event with exactly the candidate's start and end is always reported, even an empty one. */
  lemma SameIntervalOverlaps(start: int, end: int)
    ensures Overlaps(start, end, start, end)
  {
  }

  /** `checkEventOverlap(newEvent, existingEvents)`: the existing events the new one conflicts with. */
  function CheckEventOverlap(newEvent: EventData, existing: seq<Event>): (r: seq<Event>)
    ensures |r| <= |existing|
  {
    if existing == [] then []
    else
      var e := existing[0];
      (if Overlaps(newEvent.start, newEvent.end, e.start, e.end) then [e] else []) + CheckEventOverlap(newEvent, existing[1..])
  }

  /** Each existing event is reported exactly as often as it occurs, if it conflicts, and otherwise never. */
  lemma {:induction false} CheckEventOverlapCounts(newEvent: EventData, existing: seq<Event>, e: Event)
    ensures multiset(CheckEventOverlap(newEvent, existing))[e]
            == if Overlaps(newEvent.start, newEvent.end, e.start, e.end) then multiset(existing)[e] else 0
  {
    if existing != [] {
      assert existing == [existing[0]] + existing[1..];
      CheckEventOverlapCounts(newEvent, existing[1..], e);
    }
  }

  /** The conflicts are exactly the existing events for which the three-clause test holds. */
  lemma CheckEventOverlapMembers(newEvent: EventData, existing: seq<Event>)
    ensures forall e :: e in CheckEventOverlap(newEvent, existing)
                        <==> e in existing && Overlaps(newEvent.start, newEvent.end, e.start, e.end)
  {
    forall e
      ensures e in CheckEventOverlap(newEvent, existing)
              <==> e in existing && Overlaps(newEvent.start, newEvent.end, e.start, e.end)
    {
      CheckEventOverlapCounts(newEvent, existing, e);
      assert e in CheckEventOverlap(newEvent, existing) <==> multiset(CheckEventOverlap(newEvent, existing))[e] > 0;
      assert e in existing <==> multiset(existing)[e] > 0;
    }
  }

  /**
   * Conflicts are reported in the order of `existing`: checking a list made of
   * two parts reports the first part's conflicts, then the second's.  With the
   * one-event case (`CheckSingle`) this determines the result completely: it
   * is `existing` with the non-conflicting events taken out.
   */
  lemma {:induction false} CheckEventOverlapConcat(newEvent: EventData, a: seq<Event>, b: seq<Event>)
    ensures CheckEventOverlap(newEvent, a + b) == CheckEventOverlap(newEvent, a) + CheckEventOverlap(newEvent, b)
  {
    if a == [] {
      assert a + b == b;
    } else {
      assert (a + b)[0] == a[0] && (a + b)[1..] == a[1..] + b;
      CheckEventOverlapConcat(newEvent, a[1..], b);
    }
  }

  /** A single existing event is reported exactly when the three-clause test holds. */
  lemma CheckSingle(newEvent: EventData, e: Event)
    ensures CheckEventOverlap(newEvent, [e]) == if Overlaps(newEvent.start, newEvent.end, e.start, e.end) then [e] else []
  {
  }

  /** Nothing to conflict with means no conflicts. */
  lemma NoExistingNoConflicts(newEvent: EventData)
    ensures CheckEventOverlap(newEvent, []) == []
  {
  }
}
