/**
 * The search for the next free time slot (src/utils/nextAvailableTime.ts):
 * day by day from an anchor date, each day from its working-hours start (or
 * from "now", rounded, on the current day), jumping past conflicting events,
 * with a fixed fallback when the horizon is exhausted.
 */
module NextAvailableTime {
  import opened Wrappers
  import opened Time
  import opened CalendarTypes
  import opened EventOverlap

  /** The search result: a start time and whether it lies after the anchor day. */
  datatype AvailableSlot = AvailableSlot(date: int, isNextDay: bool)

  /** The source's default working hours and horizon. */
  const DefaultStartHour: int := 9
  const DefaultEndHour: int := 17
  const DefaultMaxDays: int := 7

  /** The step the source would take after a free slot that is not before `endHour`. */
  const SlotStepMinutes: int := 30

  // ---------------------------------------------------------------------------
  // The day's events, sorted by start

  predicate SortedByStart(es: seq<Event>) {
    forall i, j :: 0 <= i < j < |es| ==> es[i].start <= es[j].start
  }

  /** A sorted sequence stays sorted when an event that starts no later than its head is put in front. */
  lemma ConsSorted(e: Event, es: seq<Event>)
    requires SortedByStart(es) && (es == [] || e.start <= es[0].start)
    ensures SortedByStart([e] + es)
  {
    var r := [e] + es;
    forall i, j | 0 <= i < j < |r|
      ensures r[i].start <= r[j].start
    {
      if i == 0 && j > 1 {
        assert es[0].start <= es[j - 1].start;
      }
    }
  }

  /** Puts `e` in front of the first event that does not start before it. */
  function InsertByStart(e: Event, es: seq<Event>): (r: seq<Event>)
    requires SortedByStart(es)
    ensures SortedByStart(r)
    ensures multiset(r) == multiset(es) + multiset{e}
    ensures |r| == |es| + 1 && (r[0] == e || (es != [] && r[0] == es[0]))
  {
    if es == [] || e.start <= es[0].start then
      ConsSorted(e, es);
      [e] + es
    else
      var rest := InsertByStart(e, es[1..]);
      InsertBehindHead(e, es, rest);
      [es[0]] + rest
  }

  /** The step of `InsertByStart` that keeps the head in front of the insertion into the tail. */
  lemma InsertBehindHead(e: Event, es: seq<Event>, rest: seq<Event>)
    requires SortedByStart(es) && es != [] && es[0].start < e.start
    requires SortedByStart(rest) && multiset(rest) == multiset(es[1..]) + multiset{e}
    requires |rest| == |es| && (rest[0] == e || (|es| > 1 && rest[0] == es[1]))
    ensures SortedByStart([es[0]] + rest)
    ensures multiset([es[0]] + rest) == multiset(es) + multiset{e}
  {
    assert es == [es[0]] + es[1..];
    ConsSorted(es[0], rest);
  }

  /**
   * `events.sort((a, b) => a.start.getTime() - b.start.getTime())`: a stable
   * insertion sort, so events with equal starts keep their relative order.
   */
  function SortByStart(es: seq<Event>): (r: seq<Event>)
    ensures SortedByStart(r)
    ensures multiset(r) == multiset(es)
  {
    if es == [] then []
    else
      assert es == [es[0]] + es[1..];
      InsertByStart(es[0], SortByStart(es[1..]))
  }

  /** Sorting neither adds nor drops an event. */
  lemma SortByStartMembers(es: seq<Event>)
    ensures forall z :: z in SortByStart(es) <==> z in es
  {
    var r := SortByStart(es);
    forall z
      ensures z in r <==> z in es
    {
      assert z in r <==> multiset(r)[z] > 0;
      assert z in es <==> multiset(es)[z] > 0;
    }
  }

  /** `events.filter(event => isSameDay(event.start, day))` */
  function EventsOnDay(events: seq<Event>, day: int, zone: int): (r: seq<Event>)
    ensures forall e :: e in r <==> e in events && IsSameDay(e.start, day, zone)
  {
    if events == [] then []
    else
      var e := events[0];
      assert events == [e] + events[1..];
      (if IsSameDay(e.start, day, zone) then [e] else []) + EventsOnDay(events[1..], day, zone)
  }

  // ---------------------------------------------------------------------------
  // The first candidate of a day

  /** `Math.ceil(minutes / 30) * 30` for a minute 0..59. */
  function RoundUpToHalfHour(minutes: int): (r: int)
    requires 0 <= minutes < 60
    ensures minutes == 0 ==> r == 0
    ensures 1 <= minutes <= 30 ==> r == 30
    ensures 31 <= minutes ==> r == 60
  {
    (minutes + 29) / 30 * 30
  }

  /**
   * The day's first candidate: `startHour`:00 on the day of `current`, unless
   * that day is today and `now` is already later, in which case the hour of
   * `now` with its minutes rounded up to a half hour, keeping the seconds and
   * milliseconds of `current`.
   */
  function FirstCandidate(current: int, now: int, startHour: int, zone: int): int {
    var candidate := SetMinutes(SetHours(StartOfDay(current, zone), startHour, zone), 0, zone);
    if IsSameDay(current, now, zone) && now > candidate then
      SetMinutes(SetHours(current, HourOf(now, zone), zone), RoundUpToHalfHour(MinuteOf(now, zone)), zone)
    else candidate
  }

  /** On any day but today, or before `startHour` today, the day starts at `startHour`:00 sharp. */
  lemma FirstCandidateAtStartHour(current: int, now: int, startHour: int, zone: int)
    requires 0 <= startHour < 24
    requires !IsSameDay(current, now, zone) || now <= StartOfDay(current, zone) + startHour * HourMs
    ensures FirstCandidate(current, now, startHour, zone) == StartOfDay(current, zone) + startHour * HourMs
  {
  }

  /**
   * Later today the day starts at the current hour plus the rounded minutes
   * (0 stays :00, 1..30 give :30, 31..59 give the next hour's :00), plus the
   * seconds and milliseconds of `current`.
   */
  lemma FirstCandidateToday(current: int, now: int, startHour: int, zone: int)
    requires 0 <= startHour < 24
    requires IsSameDay(current, now, zone) && now > StartOfDay(current, zone) + startHour * HourMs
    ensures FirstCandidate(current, now, startHour, zone)
         == StartOfDay(current, zone) + HourOf(now, zone) * HourMs
            + RoundUpToHalfHour(MinuteOf(now, zone)) * MinuteMs + SubMinute(current, zone)
  {
  }

  // ---------------------------------------------------------------------------
  // Conflicts of a candidate slot

  /** The slot [t, t + duration minutes) meets one of the three overlap clauses with `e`. */
  predicate SlotConflicts(t: int, duration: int, e: Event) {
    Overlaps(t, AddMinutes(t, duration), e.start, e.end)
  }

  /** The slot starting at `t` conflicts with none of `es`. */
  predicate SlotFree(t: int, duration: int, es: seq<Event>) {
    forall e :: e in es ==> !SlotConflicts(t, duration, e)
  }

  /** Every start from a conflicting candidate up to the end of the event it hits conflicts too. */
  lemma JumpBlocks(c: int, t: int, duration: int, e: Event)
    requires duration > 0 && WellFormed(e)
    requires SlotConflicts(c, duration, e) && c <= t < e.end
    ensures SlotConflicts(t, duration, e)
  {
    OverlapsIffIntersect(c, AddMinutes(c, duration), e.start, e.end);
    OverlapsIffIntersect(t, AddMinutes(t, duration), e.start, e.end);
  }

  /** A conflict means the event ends after the candidate, so a jump to its end moves forward. */
  lemma ConflictEndsLater(c: int, duration: int, e: Event)
    requires duration > 0 && WellFormed(e) && SlotConflicts(c, duration, e)
    ensures c < e.end
  {
  }

  /**
   * Without a non-empty interval the jump need not move: a zero-length event
   * at `t` meets the third clause for the slot starting at `t`, and its end
   * is `t` again, so the source's scan would test that candidate forever.
   */
  lemma ZeroLengthEventStalls(t: int, duration: int, e: Event)
    requires duration >= 0 && e.start == t && e.end == t
    ensures SlotConflicts(t, duration, e) && e.end == t
  {
  }

  /** How many of `es` end after `t`: the measure that each jump decreases. */
  function CountEndingAfter(es: seq<Event>, t: int): (n: nat)
    ensures n <= |es|
  {
    if es == [] then 0 else (if es[0].end > t then 1 else 0) + CountEndingAfter(es[1..], t)
  }

  lemma {:induction false} CountEndingAfterMonotone(es: seq<Event>, a: int, b: int)
    requires a <= b
    ensures CountEndingAfter(es, b) <= CountEndingAfter(es, a)
  {
    if es != [] {
      CountEndingAfterMonotone(es[1..], a, b);
    }
  }

  /** Jumping to the end of an event that ends after the candidate leaves fewer events ahead. */
  lemma {:induction false} CountEndingAfterDrops(es: seq<Event>, a: int, i: int)
    requires 0 <= i < |es| && a < es[i].end
    ensures CountEndingAfter(es, es[i].end) < CountEndingAfter(es, a)
  {
    if i == 0 {
      CountEndingAfterMonotone(es[1..], a, es[0].end);
    } else {
      CountEndingAfterDrops(es[1..], a, i - 1);
    }
  }

  /** `t` is still on the local day the scan is bounded to, when it is bounded to one. */
  predicate Within(t: int, bound: Option<int>, zone: int) {
    bound.None? || LocalDay(t, zone) == bound.value
  }

  /**
   * A day the search gave up on: every start from the day's first candidate
   * up to `exit`, a time whose hour is not before `endHour` (or, for a scan
   * bounded to a day, a time on another day), conflicts with one of the
   * day's events.
   */
  ghost predicate DayExhausted(first: int, exit: int, duration: int, dayEvents: seq<Event>, endHour: int,
                               bound: Option<int>, zone: int) {
    && first <= exit
    && (HourOf(exit, zone) >= endHour || !Within(exit, bound, zone))
    && forall t :: first <= t < exit ==> !SlotFree(t, duration, dayEvents)
  }

  // ---------------------------------------------------------------------------
  // The search

  /**
   * One day of the search (the body of the source's outer loop): starting at
   * `first`, test the candidate against the day's events in start order,
   * jump to the end of the first one it conflicts with, and stop at a free
   * candidate (`found`) or once the candidate's hour reaches `endHour`.
   * `onDay` is the day's events before sorting.  The source's scan is
   * unbounded (`bound == None`); `Some(d)` also stops the scan once the
   * candidate leaves local day `d`, as `FindNextAvailableTimeWithinDay` does.
   */
  method ScanDay(dayEvents: seq<Event>, ghost onDay: seq<Event>, first: int, duration: int, endHour: int,
                 bound: Option<int>, zone: int)
    returns (found: bool, candidateTime: int)
    requires duration > 0
    requires forall e :: e in dayEvents <==> e in onDay
    requires forall e :: e in onDay ==> WellFormed(e)
    ensures first <= candidateTime
    ensures forall t :: first <= t < candidateTime ==> !SlotFree(t, duration, onDay)
    ensures found ==>
      HourOf(candidateTime, zone) < endHour && Within(candidateTime, bound, zone) && SlotFree(candidateTime, duration, onDay)
    ensures !found ==> HourOf(candidateTime, zone) >= endHour || !Within(candidateTime, bound, zone)
  {
    candidateTime := first;
    while HourOf(candidateTime, zone) < endHour && Within(candidateTime, bound, zone)
      invariant first <= candidateTime
      invariant forall t :: first <= t < candidateTime ==> !SlotFree(t, duration, onDay)
      decreases CountEndingAfter(dayEvents, candidateTime)
    {
      var candidateEnd := AddMinutes(candidateTime, duration);
      var isSlotAvailable := true;
      ghost var previous := candidateTime;
      ghost var hit := 0;

      var i := 0;
      while i < |dayEvents|
        invariant 0 <= i <= |dayEvents|
        invariant candidateTime == previous && isSlotAvailable
        invariant forall j :: 0 <= j < i ==> !SlotConflicts(previous, duration, dayEvents[j])
      {
        var event := dayEvents[i];
        if Overlaps(candidateTime, candidateEnd, event.start, event.end) {
          candidateTime := event.end;
          isSlotAvailable := false;
          hit := i;
          break;
        }
        i := i + 1;
      }

      if isSlotAvailable && HourOf(candidateTime, zone) < endHour {
        return true, candidateTime;
      }

      if isSlotAvailable {
        assert false;
        candidateTime := AddMinutes(candidateTime, SlotStepMinutes);
      }

      // A conflict: the candidate jumped to the end of dayEvents[hit].
      var event := dayEvents[hit];
      assert 0 <= hit < |dayEvents| && candidateTime == event.end && SlotConflicts(previous, duration, event);
      ConflictEndsLater(previous, duration, event);
      CountEndingAfterDrops(dayEvents, previous, hit);
      forall t | previous <= t < candidateTime
        ensures !SlotFree(t, duration, onDay)
      {
        JumpBlocks(previous, t, duration, event);
      }
    }
    found := false;
  }

  /** The slot the search settles on for the day `day` days after the anchor. */
  ghost predicate FoundOn(slot: AvailableSlot, day: nat, first: int, duration: int, dayEvents: seq<Event>,
                          endHour: int, zone: int) {
    && slot.isNextDay == (day > 0)
    && HourOf(slot.date, zone) < endHour
    && first <= slot.date
    && SlotFree(slot.date, duration, dayEvents)
    && (forall t :: first <= t < slot.date ==> !SlotFree(t, duration, dayEvents))
  }

  /**
   * `findNextAvailableTime(date, duration, events, startHour, endHour, maxDays)`
   * with the clock reading `now` and the host's offset `zone` passed in.
   * `day` is the number of days examined before the slot was found, or at
   * least `maxDays` when the fallback was taken; `exits` records, for each
   * day given up on, where its candidate stopped.
   */
  method FindNextAvailableTime(date: int, duration: int, events: seq<Event>, startHour: int, endHour: int,
                               maxDays: int, now: int, zone: int)
    returns (slot: AvailableSlot, ghost day: nat, ghost exits: seq<int>)
    requires duration > 0
    requires forall e :: e in events ==> WellFormed(e)
    ensures |exits| == day
    ensures forall k :: 0 <= k < day ==>
      DayExhausted(FirstCandidate(AddDays(date, k), now, startHour, zone), exits[k], duration,
                   EventsOnDay(events, AddDays(date, k), zone), endHour, None, zone)
    ensures day < maxDays ==>
      FoundOn(slot, day, FirstCandidate(AddDays(date, day), now, startHour, zone), duration,
              EventsOnDay(events, AddDays(date, day), zone), endHour, zone)
    ensures day >= maxDays ==>
      slot == AvailableSlot(SetHours(AddDays(StartOfDay(date, zone), 1), startHour, zone), true)
    ensures !slot.isNextDay ==>
      && FirstCandidate(date, now, startHour, zone) <= slot.date && HourOf(slot.date, zone) < endHour
      && SlotFree(slot.date, duration, EventsOnDay(events, date, zone))
  {
    var currentDate := date;
    var daysChecked := 0;
    exits := [];
    while daysChecked < maxDays
      invariant 0 <= daysChecked && (daysChecked == 0 || daysChecked <= maxDays)
      invariant currentDate == AddDays(date, daysChecked)
      invariant |exits| == daysChecked
      invariant forall k :: 0 <= k < daysChecked ==>
        DayExhausted(FirstCandidate(AddDays(date, k), now, startHour, zone), exits[k], duration,
                     EventsOnDay(events, AddDays(date, k), zone), endHour, None, zone)
      decreases maxDays - daysChecked
    {
      ghost var onDay := EventsOnDay(events, currentDate, zone);
      var dayEvents := SortByStart(EventsOnDay(events, currentDate, zone));
      SortByStartMembers(onDay);
      var first := FirstCandidate(currentDate, now, startHour, zone);
      var found, candidateTime := ScanDay(dayEvents, onDay, first, duration, endHour, None, zone);
      if found {
        slot := AvailableSlot(candidateTime, daysChecked > 0);
        assert FoundOn(slot, daysChecked, first, duration, onDay, endHour, zone);
        return slot, daysChecked, exits;
      }
      assert DayExhausted(first, candidateTime, duration, onDay, endHour, None, zone);
      ghost var previousExits := exits;
      exits := exits + [candidateTime];
      forall k | 0 <= k < daysChecked + 1
        ensures DayExhausted(FirstCandidate(AddDays(date, k), now, startHour, zone), exits[k], duration,
                             EventsOnDay(events, AddDays(date, k), zone), endHour, None, zone)
      {
        if k < daysChecked {
          assert exits[k] == previousExits[k];
        }
      }
      currentDate := AddDays(currentDate, 1);
      daysChecked := daysChecked + 1;
    }

    slot := AvailableSlot(SetHours(AddDays(StartOfDay(date, zone), 1), startHour, zone), true);
    day := daysChecked;
  }

  // ---------------------------------------------------------------------------
  // The anchor-day flag as written, and the search bounded to each day

  /** 23:40 on 1970-01-01 at offset 0: the anchor and clock reading of `MidnightSpill`. */
  const SpillAnchor: int := 23 * HourMs + 40 * MinuteMs

  /**
   * With the anchor and the clock both at 23:40, the day's first candidate is
   * 23:00 plus the minutes 40 rounded up to 60, which `setMinutes` rolls over
   * to 00:00 of the next day.  On an empty calendar that candidate is free and
   * its hour 0 is before `endHour`, so the source answers it on the first day
   * examined, with `isNextDay` false, though it lies on the following day.
   */
  method MidnightSpill() returns (slot: AvailableSlot)
    ensures !slot.isNextDay && LocalDay(slot.date, 0) == LocalDay(SpillAnchor, 0) + 1
  {
    ghost var day, exits;
    slot, day, exits := FindNextAvailableTime(SpillAnchor, 30, [], DefaultStartHour, DefaultEndHour,
                                              DefaultMaxDays, SpillAnchor, 0);
    var first := FirstCandidate(AddDays(SpillAnchor, 0), SpillAnchor, DefaultStartHour, 0);
    FirstCandidateToday(SpillAnchor, SpillAnchor, DefaultStartHour, 0);
    assert first == DayMs;
    assert HourOf(DayMs, 0) == 0;
    assert SlotFree(first, 30, EventsOnDay([], AddDays(SpillAnchor, 0), 0));
    assert day > 0 ==> DayExhausted(first, exits[0], 30, EventsOnDay([], AddDays(SpillAnchor, 0), 0), DefaultEndHour, None, 0);
    assert day == 0;
    assert !(first < slot.date);
  }

  /**
   * The search with each day's scan stopped once the candidate leaves that
   * day, so that a found slot lies on the day it was searched for and
   * `isNextDay` says whether that day is after the anchor's.  It is otherwise
   * `FindNextAvailableTime`.
   */
  method FindNextAvailableTimeWithinDay(date: int, duration: int, events: seq<Event>, startHour: int, endHour: int,
                                        maxDays: int, now: int, zone: int)
    returns (slot: AvailableSlot, ghost day: nat, ghost exits: seq<int>)
    requires duration > 0
    requires forall e :: e in events ==> WellFormed(e)
    ensures |exits| == day
    ensures forall k :: 0 <= k < day ==>
      DayExhausted(FirstCandidate(AddDays(date, k), now, startHour, zone), exits[k], duration,
                   EventsOnDay(events, AddDays(date, k), zone), endHour, Some(LocalDay(date, zone) + k), zone)
    ensures day < maxDays ==>
      && FoundOn(slot, day, FirstCandidate(AddDays(date, day), now, startHour, zone), duration,
                 EventsOnDay(events, AddDays(date, day), zone), endHour, zone)
      && LocalDay(slot.date, zone) == LocalDay(date, zone) + day
    ensures day >= maxDays ==>
      slot == AvailableSlot(SetHours(AddDays(StartOfDay(date, zone), 1), startHour, zone), true)
    ensures !slot.isNextDay ==>
      && IsSameDay(slot.date, date, zone)
      && FirstCandidate(date, now, startHour, zone) <= slot.date && HourOf(slot.date, zone) < endHour
      && SlotFree(slot.date, duration, EventsOnDay(events, date, zone))
  {
    var currentDate := date;
    var daysChecked := 0;
    exits := [];
    while daysChecked < maxDays
      invariant 0 <= daysChecked && (daysChecked == 0 || daysChecked <= maxDays)
      invariant currentDate == AddDays(date, daysChecked)
      invariant |exits| == daysChecked
      invariant forall k :: 0 <= k < daysChecked ==>
        DayExhausted(FirstCandidate(AddDays(date, k), now, startHour, zone), exits[k], duration,
                     EventsOnDay(events, AddDays(date, k), zone), endHour, Some(LocalDay(date, zone) + k), zone)
      decreases maxDays - daysChecked
    {
      ghost var onDay := EventsOnDay(events, currentDate, zone);
      var dayEvents := SortByStart(EventsOnDay(events, currentDate, zone));
      SortByStartMembers(onDay);
      var first := FirstCandidate(currentDate, now, startHour, zone);
      var bound := Some(LocalDay(currentDate, zone));
      var found, candidateTime := ScanDay(dayEvents, onDay, first, duration, endHour, bound, zone);
      if found {
        slot := AvailableSlot(candidateTime, daysChecked > 0);
        assert FoundOn(slot, daysChecked, first, duration, onDay, endHour, zone);
        return slot, daysChecked, exits;
      }
      assert DayExhausted(first, candidateTime, duration, onDay, endHour, bound, zone);
      ghost var previousExits := exits;
      exits := exits + [candidateTime];
      forall k | 0 <= k < daysChecked + 1
        ensures DayExhausted(FirstCandidate(AddDays(date, k), now, startHour, zone), exits[k], duration,
                             EventsOnDay(events, AddDays(date, k), zone), endHour, Some(LocalDay(date, zone) + k), zone)
      {
        if k < daysChecked {
          assert exits[k] == previousExits[k];
        }
      }
      currentDate := AddDays(currentDate, 1);
      daysChecked := daysChecked + 1;
    }

    slot := AvailableSlot(SetHours(AddDays(StartOfDay(date, zone), 1), startHour, zone), true);
    day := daysChecked;
  }
}
