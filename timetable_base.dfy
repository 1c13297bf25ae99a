/** src/composables/timetable/TimetableBase.ts: the editor's slot table, slot lookup by
    start text, the end time of an event and the normaliser that turns stored events
    into calendar events. */
module TimetableBase {
  import opened Wrappers
  import opened CalendarTypes
  import opened ClockFormat
  import opened Seqs
  import opened Timetable

  /** The `timeSlots` of the editor: the generator loop run on `DEFAULT_TIME_CONFIG`,
      which yields the twelve slots of the closed form. */
  method BaseTimeSlots() returns (slots: seq<TimeSlot>)
    ensures slots == SlotTable(DEFAULT_TIME_CONFIG)
    ensures |slots| == 12
  {
    slots := GenerateTimeSlots(DEFAULT_TIME_CONFIG);
  }

  /** `timeToIndex(time)`: no index for a missing or empty text; otherwise the first slot
      starting at `time`, and 0 when no slot does. */
  function TimeToIndex(slots: seq<TimeSlot>, time: Option<string>): (r: Option<int>)
    ensures r.None? <==> !Present(time)
    ensures r.Some? ==> 0 <= r.value && (r.value == 0 || r.value < |slots|)
    ensures r.Some? && (exists i :: 0 <= i < |slots| && slots[i].from == time.value) ==>
              r.value < |slots| && slots[r.value].from == time.value
              && forall j :: 0 <= j < r.value ==> slots[j].from != time.value
    ensures r.Some? && (forall i :: 0 <= i < |slots| ==> slots[i].from != time.value) ==> r.value == 0
  {
    if !Present(time) then None
    else
      var i := FindIndex(slots, (s: TimeSlot) => s.from == time.value);
      Some(if i >= 0 then i else 0)
  }

  /** `calculateEndTime(startTime, duration)`: the `to` text of the slot `duration - 1`
      slots after the start slot, clamped to the last slot. Indexing outside the table
      makes `.to` throw a TypeError: with no slots at all, or when the end index is
      negative. */
  function CalculateEndTime(slots: seq<TimeSlot>, startTime: Option<string>, duration: int)
    : (r: Result<Option<string>>)
    ensures !Present(startTime) ==> r == Ok(None)
    ensures Present(startTime) ==>
              (r.Throws? <==> slots == [] || TimeToIndex(slots, startTime).value + duration < 1)
    ensures Present(startTime) && r.Ok? ==>
              var endIndex := TimeToIndex(slots, startTime).value + duration - 1;
              r.value.Some?
              && (exists k :: 0 <= k < |slots| && r.value.value == slots[k].to
                             && (k == endIndex || (k == |slots| - 1 && endIndex >= |slots|)))
  {
    if !Present(startTime) then Ok(None)
    else
      var startIndex := TimeToIndex(slots, startTime).value;
      var endIndex := startIndex + duration - 1;
      if endIndex >= |slots| then
        if |slots| == 0 then Throws("TypeError: cannot read properties of undefined (reading 'to')")
        else Ok(Some(slots[|slots| - 1].to))
      else if endIndex < 0 then Throws("TypeError: cannot read properties of undefined (reading 'to')")
      else Ok(Some(slots[endIndex].to))
  }

  /** A stored event as the store holds it; the room and the activity are reduced to the
      ids the editor reads from them. */
  datatype StoredEvent = StoredEvent(
    id: Option<int>,
    day_of_week: Option<int>,
    start_time: Option<int>,
    duration: Option<int>,
    room_id: Option<int>,
    subject_id: Option<int>,
    event_type: Option<int>,
    weeks_bitmask: Option<int>)

  /** `DAYS[dayOfWeek - 1] ?? null`: days are numbered from 1 (Monday) to 5 (Friday). */
  function DayName(dayOfWeek: Option<int>): (r: Option<string>)
    ensures r.Some? <==> dayOfWeek.Some? && 1 <= dayOfWeek.value <= |DAYS|
    ensures r.Some? ==> r.value == DAYS[dayOfWeek.value - 1]
  {
    if dayOfWeek.Some? && 1 <= dayOfWeek.value <= |DAYS| then Some(DAYS[dayOfWeek.value - 1]) else None
  }

  /** The start slot's text: `timeSlots[Math.min(start_time, length - 1)]?.from`
      (a missing start counts as 0). */
  function StartText(slots: seq<TimeSlot>, start: Option<int>): (r: Option<string>)
    ensures var t := start.GetOr(0);
            var i := if t < |slots| - 1 then t else |slots| - 1;
            (r.Some? <==> 0 <= i) && (r.Some? ==> r.value == slots[i].from)
  {
    var t := start.GetOr(0);
    var i := if t < |slots| - 1 then t else |slots| - 1;
    if 0 <= i then Some(slots[i].from) else None
  }

  /** One step of the `events` computation: the calendar event built from a stored one. */
  function NormaliseEvent(slots: seq<TimeSlot>, e: StoredEvent): Result<CalendarEvent> {
    var startTime := StartText(slots, e.start_time);
    var endTime := CalculateEndTime(slots, startTime, e.duration.GetOr(0));
    if endTime.Throws? then Throws(endTime.reason)
    else
      Ok(CalendarEvent(
        e.id,
        DayName(e.day_of_week),
        startTime,
        endTime.value,
        TimeToIndex(slots, startTime),
        e.room_id,
        e.subject_id,
        e.event_type,
        if NonZero(e.duration) then e.duration.value else 1,
        e.weeks_bitmask.GetOr(0)))
  }

  /** What the normaliser promises of each event: it fails only when the end time cannot
      be computed; the duration defaults to one slot and the week mask to 0; the day is a
      weekday name or missing; the start text is a slot's `from` or missing, and both end
      time and start index are present exactly when the start text is; the ids carry over. */
  lemma NormaliseEventFields(slots: seq<TimeSlot>, e: StoredEvent)
    ensures var r := NormaliseEvent(slots, e);
            var st := StartText(slots, e.start_time);
            (r.Throws? <==> Present(st) && (slots == [] || TimeToIndex(slots, st).value + e.duration.GetOr(0) < 1))
            && (r.Ok? ==>
                  r.value.duration == (if NonZero(e.duration) then e.duration.value else 1)
                  && r.value.weeks_bitmask == e.weeks_bitmask.GetOr(0)
                  && (r.value.day.None? || r.value.day.value in DAYS)
                  && (r.value.start_time.None?
                      || exists i :: 0 <= i < |slots| && r.value.start_time.value == slots[i].from)
                  && (r.value.end_time.Some? <==> Present(r.value.start_time))
                  && (r.value.start_index.Some? <==> Present(r.value.start_time))
                  && r.value.id == e.id && r.value.room_id == e.room_id
                  && r.value.subject_id == e.subject_id && r.value.event_type == e.event_type)
  {
    var st := StartText(slots, e.start_time);
    if st.Some? {
      var t := e.start_time.GetOr(0);
      var i := if t < |slots| - 1 then t else |slots| - 1;
      assert st.value == slots[i].from;
    }
  }

  /** The `events` computation: `forEach` over the store, pushing each normalised event.
      A throwing event makes the whole computation throw. */
  method NormaliseEvents(slots: seq<TimeSlot>, es: seq<StoredEvent>) returns (r: Result<seq<CalendarEvent>>)
    ensures r == MapAll(es, e => NormaliseEvent(slots, e))
    ensures r.Ok? <==> forall i :: 0 <= i < |es| ==> NormaliseEvent(slots, es[i]).Ok?
    ensures r.Ok? ==> |r.value| == |es|
                      && forall i :: 0 <= i < |es| ==> r.value[i] == NormaliseEvent(slots, es[i]).value
  {
    var f := (e: StoredEvent) => NormaliseEvent(slots, e);
    var processed: seq<CalendarEvent> := [];
    var i := 0;
    while i < |es|
      invariant 0 <= i <= |es| && |processed| == i
      invariant MapAll(es[..i], f) == Ok(processed)
    {
      var e := NormaliseEvent(slots, es[i]);
      if e.Throws? {
        r := Throws(e.reason);
        MapAllThrows(es, f, i);
        MapAllSpec(es, f);
        return;
      }
      MapAllSnoc(es, f, i);
      processed := processed + [e.value];
      i := i + 1;
    }
    assert es[..i] == es;
    r := Ok(processed);
    MapAllSpec(es, f);
  }

  /** In a table of distinct non-empty start texts, looking up the start text of slot `i`
      gives back `i`: `timeToIndex` inverts `timeSlots[i].from`. */
  lemma TimeToIndexAt(slots: seq<TimeSlot>, i: nat)
    requires WellFormedStarts(slots) && i < |slots|
    ensures TimeToIndex(slots, Some(slots[i].from)) == Some(i)
  {
    var r := TimeToIndex(slots, Some(slots[i].from)).value;
    assert slots[i].from != "";
    assert r <= i;
  }

  /** With a positive step, `timeToIndex` finds every slot of the table by its start text. */
  lemma TimeToIndexOfSlot(config: TimeConfig, i: nat)
    requires Step(config) > 0 && i < SlotCount(config)
    ensures TimeToIndex(SlotTable(config), Some(SlotTable(config)[i].from)) == Some(i)
  {
    SlotTableWellFormed(config);
    TimeToIndexAt(SlotTable(config), i);
  }

  /** Slot `i + n` starts `n` steps after slot `i`. */
  lemma {:induction false} SlotStartShift(config: TimeConfig, i: nat, n: nat)
    ensures SlotStart(config, i + n) == SlotStart(config, i) + n * Step(config)
  {
    if n > 0 {
      SlotStartShift(config, i, n - 1);
      assert (n - 1) * Step(config) + Step(config) == n * Step(config);
    }
  }

  /** In a table of distinct non-empty start texts, an event of `d >= 1` slots starting
      at slot `i` ends with slot `i + d - 1`, or with the last slot when it would run past
      the end of the day. */
  lemma EndTimeAt(slots: seq<TimeSlot>, i: nat, d: int)
    requires WellFormedStarts(slots) && i < |slots| && 1 <= d
    ensures CalculateEndTime(slots, Some(slots[i].from), d)
            == Ok(Some(slots[if i + d - 1 < |slots| then i + d - 1 else |slots| - 1].to))
  {
    TimeToIndexAt(slots, i);
  }

  /** An event stored at a start slot in range keeps that slot through normalisation: its
      start text is the slot's `from`, its start index is the slot and it does not throw. */
  lemma NormaliseKeepsSlot(slots: seq<TimeSlot>, e: StoredEvent)
    requires WellFormedStarts(slots)
    requires e.start_time.Some? && 0 <= e.start_time.value < |slots|
    requires e.duration.Some? && 1 <= e.duration.value
    ensures var r := NormaliseEvent(slots, e);
            r.Ok? && r.value.start_time == Some(slots[e.start_time.value].from)
            && r.value.start_index == Some(e.start_time.value)
            && r.value.duration == e.duration.value
  {
    var i := e.start_time.value;
    assert StartText(slots, e.start_time) == Some(slots[i].from);
    TimeToIndexAt(slots, i);
    EndTimeAt(slots, i, e.duration.value);
  }

  /** On the slot table of a positive step, an event of `d` slots starting at slot `i` that
      fits in the day ends with slot `i + d - 1`. */
  lemma EventSpan(config: TimeConfig, i: nat, d: int)
    requires Step(config) > 0 && 1 <= d && i + d <= SlotCount(config)
    ensures CalculateEndTime(SlotTable(config), Some(SlotTable(config)[i].from), d)
            == Ok(Some(SlotTable(config)[i + d - 1].to))
  {
    SlotTableWellFormed(config);
    EndTimeAt(SlotTable(config), i, d);
  }

  /** An event of `d` slots starting at slot `i` ends `d - 1` steps plus one slot length
      after the slot's start (and `SlotEndText` reads that minute count back from the
      end text). */
  lemma SpanMinutes(config: TimeConfig, i: nat, d: int)
    requires 1 <= d
    ensures SlotEnd(config, i + d - 1) == SlotStart(config, i) + (d - 1) * Step(config) + config.slotDuration
  {
    SlotStartShift(config, i, d - 1);
  }

  /** The `to` text of slot `k` reads back as the slot's end minute. */
  lemma SlotEndText(config: TimeConfig, k: nat)
    requires k < SlotCount(config)
    ensures ParseClock(SlotTable(config)[k].to) == Some(SlotEnd(config, k))
  {
    SlotTableAt(config, k);
    MinutesTextRoundTrip(SlotEnd(config, k));
  }
}
