/** Record shapes of src/types/types.ts used by the timetable editor. */
module CalendarTypes {
  import opened Wrappers

  /** One row of the slot table: `from`/`to` are `HH:MM` texts. */
  datatype TimeSlot = TimeSlot(from: string, to: string, index: int)

  /** A normalised scheduled event. Missing values (`null` or `undefined`) are `None`;
      title, shortcut, colour and room name are display-only and not modelled. */
  datatype CalendarEvent = CalendarEvent(
    id: Option<int>,
    day: Option<string>,
    start_time: Option<string>,
    end_time: Option<string>,
    start_index: Option<int>,
    room_id: Option<int>,
    subject_id: Option<int>,
    event_type: Option<int>,
    duration: int,
    weeks_bitmask: int)

  /** JavaScript truthiness of an optional string: present and non-empty. */
  predicate Present(s: Option<string>) {
    s.Some? && s.value != ""
  }

  /** JavaScript truthiness of an optional number: present and non-zero. */
  predicate NonZero(n: Option<int>) {
    n.Some? && n.value != 0
  }
}
