/** src/components/timetables/TimeTableStyle.ts: the integer geometry of the editor's
    boxes and the drag highlight of the grid cells. */
module TimetableStyle {
  import opened Wrappers
  import opened CalendarTypes
  import opened Seqs
  import opened Timetable
  import opened TimetableRows
  import opened Conflicts

  /** What the style composable reads. `conflicts` is the conflict checker, absent in a
      read-only timetable; `timeToIndex` is the slot lookup the editor passes in. */
  datatype StyleOptions = StyleOptions(
    draggedEvent: Option<CalendarEvent>,
    draggedOverDay: Option<string>,
    draggedOverTime: Option<TimeSlot>,
    rowPositions: Positions,
    dayPositions: seq<int>,
    timeToIndex: string -> Option<int>,
    filteredEvents: seq<CalendarEvent>,
    conflicts: Option<ConflictOptions>,
    timeSlots: seq<TimeSlot>,
    config: TimetableConfig)

  datatype Cursor = Auto | Move

  /** The three opacities of an event box: 0.4 for the dragged event, 0.85 for the others
      during a drag, 1 otherwise. */
  datatype Opacity = DraggedOpacity | DimmedOpacity | FullOpacity

  /** The five cell backgrounds. */
  datatype CellBackground = Transparent | DarkOrange | LightOrange | Blue | Red

  /** An event box: `NoStyle` is the empty style object. Its top is the day band's top
      plus a row offset with a fractional spacing; the model keeps the band top and the
      row and row count the offset is computed from. */
  datatype EventStyle =
    | NoStyle
    | EventBox(left: int, dayTop: Option<int>, row: int, maxRows: int, width: int, height: int,
               cursor: Cursor, opacity: Opacity)

  /** A grid cell or a day label; `top` is absent when the day has no band position. */
  datatype BandBox = BandBox(left: int, top: Option<int>, width: int, height: int)

  datatype CellStyle = CellStyle(box: BandBox, background: CellBackground)

  datatype ContainerStyle = ContainerStyle(width: int, height: Option<int>)

  /** `array[i]`, absent outside the array. */
  function At(s: seq<int>, i: int): Option<int> {
    if 0 <= i < |s| then Some(s[i]) else None
  }

  /** `readonly`: there is no conflict checker. */
  predicate Readonly(o: StyleOptions) {
    o.conflicts.None?
  }

  /** The rows of a day as the cell, label and container styles read them: the row count
      of the day's first event, or 1 when there is none, it has no entry or the count is 0. */
  function CellRows(m: Positions, dayEvents: seq<CalendarEvent>): int {
    if |dayEvents| > 0 && dayEvents[0].id in m && m[dayEvents[0].id].maxRows != 0 then
      m[dayEvents[0].id].maxRows
    else 1
  }

  /** The styles read the same row count as the band positions do. */
  lemma CellRowsIsBandRows(m: Positions, dayEvents: seq<CalendarEvent>)
    ensures CellRows(m, dayEvents) == BandRows(m, dayEvents)
  {
    if |dayEvents| > 0 && dayEvents[0].id in m {
      FilterMembers(dayEvents, HasEntry(m));
      assert dayEvents[0] in Filter(dayEvents, HasEntry(m));
    }
  }

  // ---------------------------------------------------------------- event boxes

  /** `getEventStyle`. */
  function GetEventStyle(o: StyleOptions, event: CalendarEvent): EventStyle {
    if !Present(event.day) || !Present(event.start_time) || !Present(event.end_time) then NoStyle
    else
      var dayIndex := IndexOf(DAYS, event.day.value);
      var startIndex := o.timeToIndex(event.start_time.value);
      var duration := event.duration;
      var position := if event.id in o.rowPositions then o.rowPositions[event.id] else Position(0, 1);
      var eventHeight := o.config.cellHeight - 4;
      var opacity := if o.draggedEvent.None? then FullOpacity
                     else if o.draggedEvent.value.id == event.id then DraggedOpacity
                     else DimmedOpacity;
      EventBox(o.config.dayColumnWidth + o.config.cellWidth * startIndex.GetOr(0),
               At(o.dayPositions, dayIndex),
               position.row, position.maxRows,
               o.config.cellWidth * duration - 4,
               eventHeight,
               if Readonly(o) then Auto else Move,
               opacity)
  }

  /** The day bands are those `getDayRowPositions` lays out from the row positions. */
  predicate BandTops(o: StyleOptions) {
    |o.dayPositions| == |DAYS|
    && forall i :: 0 <= i < |DAYS| ==> o.dayPositions[i] == DayTop(o.config, o.rowPositions, o.filteredEvents, i)
  }

  /** A placed event's box starts at the left edge of its start slot's column and ends 4
      pixels before the right edge of its last slot's column; it sits in its day's band, in
      the row recorded for it (row 0 of 1 when none is); the cursor is `auto` exactly in a
      read-only timetable; events lacking a day or a time get no style. */
  lemma EventStyleSpec(o: StyleOptions, event: CalendarEvent)
    ensures GetEventStyle(o, event).NoStyle? <==>
              !(Present(event.day) && Present(event.start_time) && Present(event.end_time))
    ensures GetEventStyle(o, event).EventBox? ==>
              var r := GetEventStyle(o, event);
              var s := o.timeToIndex(event.start_time.value).GetOr(0);
              r.left == HeaderBox(o.config, s).left
              && r.left + r.width + 4 == HeaderBox(o.config, s + event.duration).left
              && r.height == o.config.cellHeight - 4
              && (r.cursor == Auto <==> Readonly(o))
              && (event.id in o.rowPositions ==>
                    r.row == o.rowPositions[event.id].row && r.maxRows == o.rowPositions[event.id].maxRows)
              && (event.id !in o.rowPositions ==> r.row == 0 && r.maxRows == 1)
              && (BandTops(o) && event.day.value in DAYS ==>
                    r.dayTop == Some(DayTop(o.config, o.rowPositions, o.filteredEvents, IndexOf(DAYS, event.day.value))))
  {
    if GetEventStyle(o, event).EventBox? {
      var s := o.timeToIndex(event.start_time.value).GetOr(0);
      assert o.config.cellWidth * (s + event.duration) == o.config.cellWidth * s + o.config.cellWidth * event.duration;
    }
  }

  /** With the positions of `getRowEventPositions`, every styled event lies in a row of
      its band. */
  lemma EventStyleWithinBand(o: StyleOptions, event: CalendarEvent)
    requires o.rowPositions == RowPositions(o.timeSlots, o.filteredEvents)
    requires event in o.filteredEvents && GetEventStyle(o, event).EventBox?
    ensures 0 <= GetEventStyle(o, event).row < GetEventStyle(o, event).maxRows
  {
    RowPositionsEntries(o.timeSlots, o.filteredEvents);
  }

  // ---------------------------------------------------------------- cells

  /** `DAYS[dayIndex]`: outside the weekdays it is `undefined`, which equals no day. */
  predicate IsDay(day: Option<string>, dayIndex: int) {
    0 <= dayIndex < |DAYS| && day == Some(DAYS[dayIndex])
  }

  /** `filteredEvents.filter(e => e.day === DAYS[dayIndex])`. */
  function EventsOfDay(events: seq<CalendarEvent>, dayIndex: int): seq<CalendarEvent> {
    if 0 <= dayIndex < |DAYS| then DayEvents(events, DAYS[dayIndex]) else []
  }

  /** `isDraggedOver`: the cell lies in the dragged event's span at the drag target. */
  predicate IsDraggedOver(o: StyleOptions, dayIndex: int, timeIndex: int) {
    o.draggedEvent.Some? && IsDay(o.draggedOverDay, dayIndex) && o.draggedOverTime.Some?
    && timeIndex >= o.draggedOverTime.value.index
    && timeIndex < o.draggedOverTime.value.index + o.draggedEvent.value.duration
  }

  /** `cellInvolvedInOverlap` of a conflict result: the results of `checkConflicts` have no
      such field, so reading it always gives `undefined`. */
  function CellInvolvedInOverlap(r: ConflictResult): Option<bool> {
    None
  }

  /** The background of `getCellStyle`. */
  function Background(o: StyleOptions, dayIndex: int, timeIndex: int): CellBackground {
    var isDraggedOver := IsDraggedOver(o, dayIndex, timeIndex);
    if o.draggedEvent.None? then Transparent
    else if o.conflicts.Some? && isDraggedOver && HasRoomConflict(o.conflicts.value) then DarkOrange
    else if o.conflicts.Some?
            && CellInvolvedInOverlap(ConflictsAt(o.conflicts.value, DayIndex(dayIndex), Some(timeIndex))) == Some(true)
    then LightOrange
    else if isDraggedOver && o.draggedEvent.Some? && o.draggedOverTime.Some? then
      if o.draggedOverTime.value.index + o.draggedEvent.value.duration <= |o.timeSlots| then Blue else Red
    else Transparent
  }

  /** The highlight of a cell: dark orange in the dragged span when the drag has a room
      conflict; otherwise blue in the span when the whole event fits before the last slot
      and red when it does not; transparent outside the span, so always without a drag
      and at a day index outside the weekdays. The light orange branch never fires. */
  lemma BackgroundSpec(o: StyleOptions, dayIndex: int, timeIndex: int)
    ensures var b := Background(o, dayIndex, timeIndex);
            var inSpan := IsDraggedOver(o, dayIndex, timeIndex);
            var conflict := o.conflicts.Some? && HasRoomConflict(o.conflicts.value);
            b != LightOrange
            && (b == DarkOrange <==> inSpan && conflict)
            && (b == Blue <==> inSpan && !conflict
                               && o.draggedOverTime.value.index + o.draggedEvent.value.duration <= |o.timeSlots|)
            && (b == Red <==> inSpan && !conflict
                              && o.draggedOverTime.value.index + o.draggedEvent.value.duration > |o.timeSlots|)
            && (b == Transparent <==> !inSpan)
            && (o.draggedEvent.None? ==> b == Transparent)
            && (!(0 <= dayIndex < |DAYS|) ==> b == Transparent)
  {
  }

  /** `getCellStyle(dayIndex, timeIndex)`. */
  function GetCellStyle(o: StyleOptions, dayIndex: int, timeIndex: int): CellStyle {
    var dayEvents := EventsOfDay(o.filteredEvents, dayIndex);
    var maxRows := if |dayEvents| > 0 then CellRows(o.rowPositions, dayEvents) else 1;
    var cellHeight := o.config.cellHeight * maxRows;
    CellStyle(BandBox(o.config.dayColumnWidth + o.config.cellWidth * timeIndex,
                      At(o.dayPositions, dayIndex), o.config.cellWidth, cellHeight),
              Background(o, dayIndex, timeIndex))
  }

  /** `getDayStyle(index)`: the label of a day band. */
  function GetDayStyle(o: StyleOptions, index: int): BandBox {
    var dayEvents := EventsOfDay(o.filteredEvents, index);
    var maxRows := if |dayEvents| > 0 then CellRows(o.rowPositions, dayEvents) else 1;
    BandBox(0, At(o.dayPositions, index), o.config.dayColumnWidth, o.config.cellHeight * maxRows)
  }

  /** The height of a band box for day `i`, from the day's events. */
  lemma BandHeight(o: StyleOptions, i: int)
    requires 0 <= i < |DAYS| && BandTops(o)
    ensures var dayEvents := EventsOfDay(o.filteredEvents, i);
            var maxRows := if |dayEvents| > 0 then CellRows(o.rowPositions, dayEvents) else 1;
            DayTop(o.config, o.rowPositions, o.filteredEvents, i) + o.config.cellHeight * maxRows
              == DayTop(o.config, o.rowPositions, o.filteredEvents, i + 1)
  {
    var dayEvents := DayEvents(o.filteredEvents, DAYS[i]);
    CellRowsIsBandRows(o.rowPositions, dayEvents);
    DayTopStep(o.config, o.rowPositions, o.filteredEvents, i);
  }

  /** With the band positions of `getDayRowPositions`, the cells of a day and its label
      fill exactly that day's band: they start at its top and end where the next band
      starts; and the cell in slot column `t` lies under the header of column `t`. */
  lemma CellsFillBand(o: StyleOptions, dayIndex: int, timeIndex: int)
    requires 0 <= dayIndex < |DAYS| && BandTops(o)
    ensures var c := GetCellStyle(o, dayIndex, timeIndex).box;
            var d := GetDayStyle(o, dayIndex);
            c.top == d.top == Some(DayTop(o.config, o.rowPositions, o.filteredEvents, dayIndex))
            && c.top.value + c.height == DayTop(o.config, o.rowPositions, o.filteredEvents, dayIndex + 1)
            && c.height == d.height
            && c.left == HeaderBox(o.config, timeIndex).left && c.width == HeaderBox(o.config, timeIndex).width
            && d.left + d.width == HeaderBox(o.config, 0).left
  {
    BandHeight(o, dayIndex);
  }

  // ---------------------------------------------------------------- container

  /** `containerStyle`: wide enough for every slot column; as high as the last band's top
      plus that band's height. */
  function GetContainerStyle(o: StyleOptions): ContainerStyle {
    var lastDayIndex := |DAYS| - 1;
    var lastDayEvents := EventsOfDay(o.filteredEvents, lastDayIndex);
    var lastDayHeight := if |lastDayEvents| > 0 then o.config.cellHeight * CellRows(o.rowPositions, lastDayEvents)
                         else o.config.cellHeight;
    var top := At(o.dayPositions, lastDayIndex);
    ContainerStyle(o.config.dayColumnWidth + o.config.cellWidth * |o.timeSlots|,
                   if top.Some? then Some(top.value + lastDayHeight) else None)
  }

  /** The container ends at the bottom of the last day band and at the right edge of the
      last slot column. */
  lemma ContainerEndsWithBands(o: StyleOptions)
    requires BandTops(o)
    ensures GetContainerStyle(o).height == Some(DayTop(o.config, o.rowPositions, o.filteredEvents, |DAYS|))
    ensures GetContainerStyle(o).width == HeaderBox(o.config, |o.timeSlots|).left
  {
    BandHeight(o, |DAYS| - 1);
  }
}
