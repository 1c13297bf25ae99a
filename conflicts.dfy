/** src/components/timetables/Conflicts.ts: while an event is dragged over the grid, the
    placed events it would collide with in the same room. */
module Conflicts {
  import opened Wrappers
  import opened CalendarTypes
  import opened Seqs

  /** The editor state the checks read. `timeToIndex` and `getEventDuration` are the
      callbacks the editor passes in. */
  datatype ConflictOptions = ConflictOptions(
    isDragging: bool,
    draggedEvent: Option<CalendarEvent>,
    draggedOverDay: Option<string>,
    draggedOverTime: Option<TimeSlot>,
    placedEvents: seq<CalendarEvent>,
    timeToIndex: string -> int,
    getEventDuration: CalendarEvent -> int,
    days: seq<string>)

  /** `checkConflicts` accepts a day name or a day index. */
  datatype DayQuery = DayName(name: string) | DayIndex(index: int)

  datatype ConflictResult = ConflictResult(hasConflict: bool, types: seq<string>, events: seq<CalendarEvent>)

  datatype CellConflict = CellConflict(hasConflict: bool, types: seq<string>)

  const NO_CONFLICT := ConflictResult(false, [], [])

  /** `typeof day === 'number' ? days[day] : day`; an index outside `days` names no day. */
  function QueryDay(days: seq<string>, day: DayQuery): (r: Option<string>)
    ensures day.DayName? ==> r == Some(day.name)
    ensures day.DayIndex? ==> (r.Some? <==> 0 <= day.index < |days|)
    ensures day.DayIndex? && r.Some? ==> r.value == days[day.index]
  {
    match day
    case DayName(name) => Some(name)
    case DayIndex(i) => if 0 <= i < |days| then Some(days[i]) else None
  }

  /** The placed events to check: all of them, or all but those sharing the dragged
      event's id when it has one. */
  function EventsToCheck(placed: seq<CalendarEvent>, dragged: CalendarEvent): seq<CalendarEvent> {
    if NonZero(dragged.id) then Filter(placed, (e: CalendarEvent) => e.id != dragged.id) else placed
  }

  /** The slot ranges `[timeIndex, endTimeIndex]` and `[eventStartIndex, eventEndIndex]`
      overlap, as the check tests it. */
  predicate RangesOverlap(timeIndex: int, endTimeIndex: int, eventStartIndex: int, eventEndIndex: int) {
    timeIndex <= eventEndIndex && endTimeIndex >= eventStartIndex
  }

  /** The loop body's test: `e` is fully placed, on the queried day, overlaps the dragged
      event's slots and uses the same room. */
  predicate Clashes(o: ConflictOptions, dragged: CalendarEvent, dayName: Option<string>, timeIndex: int, e: CalendarEvent) {
    Present(e.day) && Present(e.start_time) && Present(e.end_time)
    && e.day == dayName
    && var eventStartIndex := o.timeToIndex(e.start_time.value);
       var eventEndIndex := eventStartIndex + o.getEventDuration(e) - 1;
       RangesOverlap(timeIndex, timeIndex + dragged.duration - 1, eventStartIndex, eventEndIndex)
       && dragged.room_id == e.room_id
  }

  function ClashesWith(o: ConflictOptions, dragged: CalendarEvent, dayName: Option<string>, timeIndex: int)
    : CalendarEvent -> bool
  {
    (e: CalendarEvent) => Clashes(o, dragged, dayName, timeIndex, e)
  }

  /** What `checkConflicts(day, timeIndex)` returns. */
  function ConflictsAt(o: ConflictOptions, day: DayQuery, timeIndex: Option<int>): ConflictResult {
    if o.draggedEvent.None? || timeIndex.None? then NO_CONFLICT
    else
      var dragged := o.draggedEvent.value;
      var found := Filter(EventsToCheck(o.placedEvents, dragged),
                          ClashesWith(o, dragged, QueryDay(o.days, day), timeIndex.value));
      ConflictResult(found != [], if found != [] then ["room"] else [], found)
  }

  /** `checkConflicts`: the `for ... of` loop over the events to check, collecting the
      clashing ones and the conflict types. */
  method CheckConflicts(o: ConflictOptions, day: DayQuery, timeIndex: Option<int>) returns (r: ConflictResult)
    ensures r == ConflictsAt(o, day, timeIndex)
  {
    if o.draggedEvent.None? || timeIndex.None? {
      return NO_CONFLICT;
    }
    var event := o.draggedEvent.value;
    var dayName := QueryDay(o.days, day);
    var eventsToCheck := EventsToCheck(o.placedEvents, event);
    var ti := timeIndex.value;
    var endTimeIndex := ti + event.duration - 1;
    var conflictTypes: seq<string> := [];
    var conflictingEvents: seq<CalendarEvent> := [];
    ghost var p := ClashesWith(o, event, dayName, ti);
    for i := 0 to |eventsToCheck|
      invariant conflictingEvents == Filter(eventsToCheck[..i], p)
      invariant conflictTypes == if conflictingEvents != [] then ["room"] else []
    {
      var e := eventsToCheck[i];
      FilterPrefixSnoc(eventsToCheck, i, p);
      assert p(e) == Clashes(o, event, dayName, ti, e);
      if !Present(e.day) || !Present(e.start_time) || !Present(e.end_time) {
        continue;
      }
      if e.day != dayName {
        continue;
      }
      var eventStartIndex := o.timeToIndex(e.start_time.value);
      var eventEndIndex := eventStartIndex + o.getEventDuration(e) - 1;
      if ti <= eventEndIndex && endTimeIndex >= eventStartIndex {
        var roomConflict := event.room_id == e.room_id;
        if roomConflict {
          if "room" !in conflictTypes {
            conflictTypes := conflictTypes + ["room"];
          }
          conflictingEvents := conflictingEvents + [e];
        }
      }
    }
    assert eventsToCheck[..|eventsToCheck|] == eventsToCheck;
    r := ConflictResult(|conflictingEvents| > 0, conflictTypes, conflictingEvents);
    ConflictsAtFound(o, day, ti, conflictingEvents);
  }

  /** The result of the check once the clashing events are known. */
  lemma ConflictsAtFound(o: ConflictOptions, day: DayQuery, ti: int, found: seq<CalendarEvent>)
    requires o.draggedEvent.Some?
    requires found == Filter(EventsToCheck(o.placedEvents, o.draggedEvent.value),
                             ClashesWith(o, o.draggedEvent.value, QueryDay(o.days, day), ti))
    ensures ConflictsAt(o, day, Some(ti)) == ConflictResult(found != [], if found != [] then ["room"] else [], found)
  {
  }

  /** `cellHasConflict(dayIndex, timeIndex)`: the verdict and types of the check at a day
      index, without the events. */
  function CellHasConflict(o: ConflictOptions, dayIndex: int, timeIndex: Option<int>): (r: CellConflict)
    ensures r.hasConflict == ConflictsAt(o, DayIndex(dayIndex), timeIndex).hasConflict
    ensures r.types == ConflictsAt(o, DayIndex(dayIndex), timeIndex).types
  {
    var result := ConflictsAt(o, DayIndex(dayIndex), timeIndex);
    CellConflict(result.hasConflict, result.types)
  }

  /** `hasRoomConflict`: the check for the current drag position. */
  function HasRoomConflict(o: ConflictOptions): bool {
    if !o.isDragging || !Present(o.draggedOverDay) || o.draggedOverTime.None? then false
    else
      var timeIndex := o.timeToIndex(o.draggedOverTime.value.from);
      ConflictsAt(o, DayName(o.draggedOverDay.value), Some(timeIndex)).hasConflict
  }

  /** The check reports exactly the placed events, other than the dragged one, that lie on
      the queried day, overlap the dragged event's slots and share its room; a conflict
      exists exactly when there is one, and its only type is `room`. */
  lemma ConflictsAtSpec(o: ConflictOptions, day: DayQuery, ti: int, e: CalendarEvent)
    requires o.draggedEvent.Some?
    ensures var dragged := o.draggedEvent.value;
            var r := ConflictsAt(o, day, Some(ti));
            (e in r.events <==>
               e in o.placedEvents && !(NonZero(dragged.id) && e.id == dragged.id)
               && Clashes(o, dragged, QueryDay(o.days, day), ti, e))
            && (r.hasConflict <==> r.events != [])
            && (r.types == if r.hasConflict then ["room"] else [])
            && IsSubsequence(r.events, o.placedEvents)
  {
    var dragged := o.draggedEvent.value;
    var p := ClashesWith(o, dragged, QueryDay(o.days, day), ti);
    var toCheck := EventsToCheck(o.placedEvents, dragged);
    EventsToCheckSpec(o.placedEvents, dragged);
    FilterMembers(toCheck, p);
    FilterIsSubsequence(toCheck, p);
    SubsequenceTrans(Filter(toCheck, p), toCheck, o.placedEvents);
    assert p(e) == Clashes(o, dragged, QueryDay(o.days, day), ti, e);
  }

  /** The events to check are the placed ones other than those sharing the dragged event's
      id, in their order. */
  lemma EventsToCheckSpec(placed: seq<CalendarEvent>, dragged: CalendarEvent)
    ensures forall e :: e in EventsToCheck(placed, dragged) <==>
                          e in placed && !(NonZero(dragged.id) && e.id == dragged.id)
    ensures IsSubsequence(EventsToCheck(placed, dragged), placed)
  {
    if NonZero(dragged.id) {
      FilterMembers(placed, (x: CalendarEvent) => x.id != dragged.id);
      FilterIsSubsequence(placed, (x: CalendarEvent) => x.id != dragged.id);
    } else {
      SubsequenceRefl(placed);
    }
  }

  /** Without a dragged event or a slot index there is never a conflict. */
  lemma NothingToCheck(o: ConflictOptions, day: DayQuery, timeIndex: Option<int>)
    requires o.draggedEvent.None? || timeIndex.None?
    ensures !ConflictsAt(o, day, timeIndex).hasConflict && ConflictsAt(o, day, timeIndex).events == []
  {
  }

  /** A day index outside `days` names no day, and placed events always have one, so the
      check finds nothing there. */
  lemma NoConflictOutsideDays(o: ConflictOptions, dayIndex: int, timeIndex: Option<int>)
    requires !(0 <= dayIndex < |o.days|)
    ensures !CellHasConflict(o, dayIndex, timeIndex).hasConflict
  {
    if o.draggedEvent.Some? && timeIndex.Some? {
      var dragged := o.draggedEvent.value;
      var p := ClashesWith(o, dragged, None, timeIndex.value);
      FilterMembers(EventsToCheck(o.placedEvents, dragged), p);
      if Filter(EventsToCheck(o.placedEvents, dragged), p) != [] {
        var x := Filter(EventsToCheck(o.placedEvents, dragged), p)[0];
        assert p(x);
      }
    }
  }

  predicate InRange(k: int, lo: int, hi: int) {
    lo <= k <= hi
  }

  /** For ranges of at least one slot, the test holds exactly when some slot lies in both. */
  lemma RangesOverlapShareSlot(timeIndex: int, endTimeIndex: int, eventStartIndex: int, eventEndIndex: int)
    requires timeIndex <= endTimeIndex && eventStartIndex <= eventEndIndex
    ensures RangesOverlap(timeIndex, endTimeIndex, eventStartIndex, eventEndIndex)
            <==> exists k :: InRange(k, timeIndex, endTimeIndex) && InRange(k, eventStartIndex, eventEndIndex)
  {
    if RangesOverlap(timeIndex, endTimeIndex, eventStartIndex, eventEndIndex) {
      var k := if timeIndex < eventStartIndex then eventStartIndex else timeIndex;
      assert InRange(k, timeIndex, endTimeIndex) && InRange(k, eventStartIndex, eventEndIndex);
    }
  }

  /** The overlap test does not depend on which range is the dragged one. */
  lemma RangesOverlapSymmetric(a0: int, a1: int, b0: int, b1: int)
    ensures RangesOverlap(a0, a1, b0, b1) <==> RangesOverlap(b0, b1, a0, a1)
  {
  }

  /** While dragging over a day and a slot, there is a room conflict exactly when some
      placed event other than the dragged one clashes with it there. */
  lemma HasRoomConflictMeans(o: ConflictOptions)
    ensures HasRoomConflict(o) <==>
              o.isDragging && Present(o.draggedOverDay) && o.draggedOverTime.Some? && o.draggedEvent.Some?
              && exists e :: e in o.placedEvents
                   && !(NonZero(o.draggedEvent.value.id) && e.id == o.draggedEvent.value.id)
                   && Clashes(o, o.draggedEvent.value, o.draggedOverDay,
                              o.timeToIndex(o.draggedOverTime.value.from), e)
  {
    if o.isDragging && Present(o.draggedOverDay) && o.draggedOverTime.Some? && o.draggedEvent.Some? {
      var day := DayName(o.draggedOverDay.value);
      var ti := o.timeToIndex(o.draggedOverTime.value.from);
      var r := ConflictsAt(o, day, Some(ti));
      if r.events != [] {
        ConflictsAtSpec(o, day, ti, r.events[0]);
      }
      forall e | e in o.placedEvents
        ensures !(!(NonZero(o.draggedEvent.value.id) && e.id == o.draggedEvent.value.id)
                  && Clashes(o, o.draggedEvent.value, o.draggedOverDay, ti, e)) || r.events != []
      {
        ConflictsAtSpec(o, day, ti, e);
      }
    }
  }
}
