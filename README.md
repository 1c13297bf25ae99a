# Timetable editor core, modelled in Dafny

This project models the in-memory scheduling logic of the timetable editor
(`timetable-system-fei`) and proves properties of it. The editor is a Vue
application. Everything modelled here is browser-side computation over small
lists of events.

- **Time-slot index.** The slot table is `generateTimeSlots` and its copy in
  `useTimeTableBase`. The `HH:MM` text of a slot reads back as its minute count.
  `timeToIndex` finds a slot by its start text, and `calculateEndTime` clamps an
  event's end to the last slot.
- **Event normaliser.** The `events` computation turns stored events into
  calendar events: it clamps the start slot, maps the day number to a weekday
  and fills in defaults.
- **Conflict detector.** `checkConflicts`, `cellHasConflict` and
  `hasRoomConflict` find the placed events that a dragged event would collide
  with in the same room.
- **Row packer and day bands.** `getRowEventPositions` groups the events by day,
  stably sorts each day by start slot and packs events first-fit into rows.
  `getDayRowPositions` stacks the day bands below the header.
- **View filters.** These implement week-pattern matching (exact, or a 32-bit
  bitwise and), the bachelor/master code-prefix rules, the year to
  nominal-semester table, the parallels filter and the view-type dispatch.
- **Styles.** This is the integer geometry of event boxes, grid cells, day labels
  and the container, plus the drag highlight of grid cells.
- **Constraint trees.** `transformToNested` builds a tree of shared node objects
  from the flat list. `transformToFlat` writes a tree back as a pre-order list.
  The model also covers the root-constraint lookup of `getPersonConstraints`.
- **Room groups.** The derived views of the room-group store are
  `groupsByName`, `uniqueGroupNames`, `isRoomInGroup`, `getRoomGroups`,
  `getRoomsByGroupName` and `groupOptions`.

## Model form

Each source loop that updates variables is a Dafny `method` with loop
invariants. Its `ensures` ties the result to a specification function, and
lemmas state what that function promises. The source loops modelled this way:

- the slot generator;
- the normaliser's `forEach`;
- the conflict loop;
- the row search, the packing and `maxRows` loops, and the day-group loop;
- the band-top accumulation, which fills an `array`;
- both loops of `transformToNested`;
- the recursive `processConstraint`, which appends to a shared result;
- the loops of `groupsByName` and `groupOptions`.

The pure parts are functions and predicates with lemmas.

Several JavaScript semantics are written out explicitly:

- **Truthiness.** `Present` means a non-empty string. `NonZero` means a non-zero
  number.
- **`null` and `undefined`** are both `None`.
- **`findIndex`** returns -1 when nothing matches.
- **The bitwise and** is JavaScript's `&`: it reduces both operands to 32 bits and
  reads the result as a signed 32-bit number.
- **Sorting.** `Array.prototype.sort` is stable.
- **`new Set`** keeps first-occurrence order.
- **`Object.entries`** lists array-index keys first, in numeric order, then the
  other keys in creation order.
- **Out-of-range reads.** Indexing outside a slot table gives `undefined`, and
  reading `.to` from it throws a `TypeError`; that throw is a `Result` value.
- **Shared objects.** A `transformToNested` node is an object that several
  places point at. The model keeps the nodes in an arena keyed by id, and
  `nested_children` and `parent` name nodes by their key.

Behaviour of the code worth noting:

- A conflict needs the same day, overlapping slots and strictly equal `room_id`s;
  two events without a room also conflict. The code has no weeks-bitmask test.
- `checkConflicts` returns neither `overlappingCells` nor
  `cellInvolvedInOverlap`. So the light-orange cell highlight, which tests
  `cellInvolvedInOverlap`, never fires (`TimetableStyle.BackgroundSpec`).
- A row accepts an event only when every occupant ends before the event starts,
  not just the last one placed.
- The model proves that the greedy packing keeps each row overlap-free and puts
  each event in the first row that fits. It does not prove that `maxRows` is the
  size of the largest set of mutually overlapping events.

## Model

| member | source | states |
|---|---|---|
| Timetable.GenerateTimeSlots | src/utils/timetable.ts:48-80 | yields `max(SLOT_COUNT, 0)` slots and slot `i` has index `i`. For a start minute in [0, 59], a non-negative slot length and a non-negative step (`SLOT_DURATION + BREAK_DURATION`) the slots are exactly the closed-form table: slot `i` runs from `START + i * (SLOT_DURATION + BREAK_DURATION)` for `SLOT_DURATION` minutes. |
| Timetable.SlotStartClosedForm | src/utils/timetable.ts:72-76 | slot `i` starts `START_HOUR * 60 + START_MINUTE + i * (SLOT_DURATION + BREAK_DURATION)` minutes after midnight |
| Timetable.SlotMinutesInRange | src/utils/timetable.ts:58-76 | on a regular configuration the minute field of every `from` and `to` text lies in [0, 59] |
| Timetable.SlotTableIncreasing | src/utils/timetable.ts:72-76 | with a positive step, slot starts strictly increase and each `from` text reads back as its start minute, so the `from` texts are distinct |
| Timetable.SlotTableWellFormed | src/utils/timetable.ts:48-80 | with a positive step the start texts are pairwise distinct and non-empty |
| Timetable.DefaultSlots | src/utils/timetable.ts:24-30 | the default configuration is regular, has 12 slots, and slot 0 is 08:00–08:50 |
| Timetable.DefaultSlot | src/utils/timetable.ts:24-30 | default slot `i` runs from `(8 + i)`:00 to `(8 + i)`:50 |
| Timetable.DefaultLastSlot | src/utils/timetable.ts:24-30 | the last default slot is 19:00–19:50 |
| Timetable.GridTilesContainer | src/utils/timetable.ts:82-147 | header cells sit side by side right of the corner cell and end at the container's right edge. Day rows stack below the header and end at its bottom edge. |
| Timetable.HeaderBox | src/utils/timetable.ts:83-99 | models `getHeaderStyle`: a header cell `CELL_WIDTH` wide and `HEADER_HEIGHT` high in column `index`. It has no contract of its own; `GridTilesContainer` states that the header cells tile the top edge. |
| Timetable.DayBox | src/utils/timetable.ts:101-117 | models the base `getDayStyle`: a day label `DAY_COLUMN_WIDTH` wide and `CELL_HEIGHT` high in row `index`. It has no contract of its own; `GridTilesContainer` states that the labels stack below the header. |
| Timetable.CornerBox | src/utils/timetable.ts:119-129 | models `cornerCellStyle`. It has no contract of its own; `GridTilesContainer` states that the header and the labels start at its edges. |
| Timetable.ContainerBox | src/utils/timetable.ts:131-139 | models `containerStyle`. It has no contract of its own; `GridTilesContainer` states that the last header cell and the last day label end at its edges. |
| ClockFormat.MinutesTextRoundTrip | src/utils/timetable.ts:54-56 | every minute count reads back from its zero-padded `HH:MM` text, so the text determines the time |
| ClockFormat.ClockTextRoundTrip | src/utils/timetable.ts:54-56 | `${hh}:${mm}` with the minute in [0, 59] reads back as `hour * 60 + minute` |
| ClockFormat.UnpadPadStart | src/utils/timetable.ts:54-55 | `padStart(2, '0')` of `toString()` loses nothing |
| ClockFormat.ParseNatToString | src/utils/timetable.ts:54-55 | the decimal text of a natural number reads back as that number and has no leading zero |
| TimetableBase.BaseTimeSlots | src/composables/timetable/TimetableBase.ts:82-114 | the editor's copy of the loop on the default configuration gives the 12-slot closed-form table |
| TimetableBase.TimeToIndex | src/composables/timetable/TimetableBase.ts:201-205 | a missing or empty time gives no index. A known start text gives the first slot starting there. An unknown text gives 0. |
| TimetableBase.TimeToIndexAt | src/composables/timetable/TimetableBase.ts:201-205 | with distinct non-empty start texts, `timeToIndex(slots[i].from) == i` |
| TimetableBase.TimeToIndexOfSlot | src/composables/timetable/TimetableBase.ts:201-205 | with a positive step `timeToIndex` inverts the generated table's start texts |
| TimetableBase.CalculateEndTime | src/composables/timetable/TimetableBase.ts:207-227 | a missing start gives null. It throws exactly when there are no slots or the end index is negative. Otherwise it is the `to` of slot `start + duration - 1`, or of the last slot when that lies past the end. |
| TimetableBase.EndTimeAt | src/composables/timetable/TimetableBase.ts:207-227 | for duration ≥ 1 starting at slot `i` the end is `slots[min(i + duration - 1, len - 1)].to` |
| TimetableBase.EventSpan | src/composables/timetable/TimetableBase.ts:207-227 | on the generated table an event that fits in the day ends with slot `i + d - 1` |
| TimetableBase.SpanMinutes | src/composables/timetable/TimetableBase.ts:222-226 | an event of `d` slots ends `(d - 1)` steps plus one slot length after its start |
| TimetableBase.SlotEndText | src/utils/timetable.ts:66-70 | the `to` text of slot `k` reads back as the slot's end minute |
| TimetableBase.DayName | src/composables/timetable/TimetableBase.ts:55 | day numbers 1–5 map to Monday–Friday; any other number, or none, gives null |
| TimetableBase.StartText | src/composables/timetable/TimetableBase.ts:36-37 | the start text is that of slot `min(start_time, len - 1)`. It is absent when that index is negative. |
| TimetableBase.NormaliseEventFields | src/composables/timetable/TimetableBase.ts:36-67 | an event fails only when its end time cannot be computed. The duration defaults to 1 and the week mask to 0. The day is a weekday or null, and the start text is a slot's `from` or null. The end time and start index are present iff the start text is. The ids carry over. |
| TimetableBase.NormaliseEvents | src/composables/timetable/TimetableBase.ts:25-73 | the `forEach` normalises each event. It succeeds iff every event normalises, and then holds the normalised events in input order. |
| TimetableBase.NormaliseEvent | src/composables/timetable/TimetableBase.ts:36-67 | models the body of the `forEach`: one stored event becomes a calendar event, or the `TypeError` of `calculateEndTime`. It has no contract of its own; `NormaliseEventFields` and `NormaliseKeepsSlot` state its fields. |
| TimetableBase.NormaliseKeepsSlot | src/composables/timetable/TimetableBase.ts:36-66 | an event stored at a start slot in range, with duration ≥ 1, keeps that slot's `from`, index and duration |
| Conflicts.CheckConflicts | src/components/timetables/Conflicts.ts:62-112 | the loop returns exactly the specification result `ConflictsAt` |
| Conflicts.ConflictsAtSpec | src/components/timetables/Conflicts.ts:72-107 | an event is reported iff it is placed and is not the dragged event (when that has a truthy id). It must also have a day, start and end, lie on the queried day, overlap the dragged slots inclusively and have a strictly equal `room_id`. `hasConflict` holds iff events were found, `types` is `["room"]` or `[]`, and the events keep their order in `placedEvents`. |
| Conflicts.EventsToCheckSpec | src/components/timetables/Conflicts.ts:75-77 | a dragged event with a truthy id excludes the events sharing that id and no others. With id null or 0 nothing is excluded. |
| Conflicts.NothingToCheck | src/components/timetables/Conflicts.ts:67-68 | with no dragged event or no time index there is no conflict and no event |
| Conflicts.QueryDay | src/components/timetables/Conflicts.ts:72 | a numeric day names `days[day]`, or no day outside the list |
| Conflicts.CellHasConflict | src/components/timetables/Conflicts.ts:57-60 | returns exactly the verdict and types of `checkConflicts` at that day index |
| Conflicts.NoConflictOutsideDays | src/components/timetables/Conflicts.ts:57-86 | a day index outside `days` never has a conflict |
| Conflicts.HasRoomConflictMeans | src/components/timetables/Conflicts.ts:46-54 | while dragging over a day and a slot, there is a room conflict iff some placed event other than the dragged one clashes with it there. Otherwise there is none. |
| Conflicts.HasRoomConflict | src/components/timetables/Conflicts.ts:46-54 | models `hasRoomConflict` and `currentDragConflicts`. It has no contract of its own; `HasRoomConflictMeans` states when it holds. |
| Conflicts.RangesOverlapSymmetric | src/components/timetables/Conflicts.ts:92 | the overlap test does not depend on which range is the dragged one |
| Conflicts.RangesOverlapShareSlot | src/components/timetables/Conflicts.ts:92 | for non-empty ranges the test holds iff some slot lies in both |
| TimetableRows.DayGroupsPartition | src/composables/timetable/TimetableBase.ts:119-122 | one group per distinct day, each holding exactly that day's events; every event's day is among them |
| Seqs.SortByStable | src/composables/timetable/TimetableBase.ts:123-125 | the day's events come out sorted by start slot, and equal starts keep their input order |
| Seqs.SortByPermutes | src/composables/timetable/TimetableBase.ts:123-125 | sorting only reorders the day's events |
| TimetableRows.SortedDay | src/composables/timetable/TimetableBase.ts:123-125 | models the comparator sort of one day's events by `timeToIndex(start_time)`. It has no contract of its own; `Seqs.SortByStable` and `Seqs.SortByPermutes` state that it is a stable reordering by that key. |
| TimetableRows.StartIndex | src/composables/timetable/TimetableBase.ts:130-132 | models the `findIndex` of the slot whose `from` is the event's start, -1 when there is none. Its contract is that of `Seqs.FindIndex`. |
| TimetableRows.EndIndex | src/composables/timetable/TimetableBase.ts:143-145 | models the `findIndex` of the slot whose `to` is the occupant's end, -1 when there is none. Its contract is that of `Seqs.FindIndex`. |
| TimetableRows.FindRow | src/composables/timetable/TimetableBase.ts:134-155 | the `while` loop stops at the first row that no occupant overlaps, opening an empty row past the last one |
| TimetableRows.FirstFit | src/composables/timetable/TimetableBase.ts:134-155 | the row chosen is the lowest one that fits; every row below it has an occupant that ends at or after the start |
| TimetableRows.PackEvents | src/composables/timetable/TimetableBase.ts:129-159 | the packing loop builds the specification rows and enters each event with its row and `maxRows: 0` |
| TimetableRows.SetMaxRows | src/composables/timetable/TimetableBase.ts:161-167 | the second loop gives every entered event of the day the day's row count |
| TimetableRows.PlaceDay | src/composables/timetable/TimetableBase.ts:122-168 | one day is sorted, then packed, then given its row count |
| TimetableRows.GetRowEventPositions | src/composables/timetable/TimetableBase.ts:116-171 | the loop over the day groups returns exactly the specification map `RowPositions` |
| TimetableRows.PackRows | src/composables/timetable/TimetableBase.ts:127-159 | each row is exactly the events assigned to it, in order, and there are no more rows than events |
| TimetableRows.SameRowDisjoint | src/composables/timetable/TimetableBase.ts:137-157 | two events packed into the same row do not overlap: the later one starts after the earlier one ends |
| TimetableRows.FirstFitMinimal | src/composables/timetable/TimetableBase.ts:137-155 | an event sits below row `r` only because an earlier occupant of row `r` had not ended before it starts |
| TimetableRows.RowsOccupied | src/composables/timetable/TimetableBase.ts:137-161 | every row that was opened holds some event |
| TimetableRows.RowPositionsEntries | src/composables/timetable/TimetableBase.ts:116-171 | every event gets an entry, and every entry has `0 <= row < maxRows` |
| TimetableRows.EventPosition | src/composables/timetable/TimetableBase.ts:116-171 | with distinct ids, an event's entry is the row it was packed into within its sorted day and that day's row count |
| TimetableRows.RowPositionsDisjoint | src/composables/timetable/TimetableBase.ts:116-171 | with distinct ids, two events of the same day given the same row have disjoint slot ranges |
| TimetableRows.DayMaxRows | src/composables/timetable/TimetableBase.ts:182-193 | a day's band is the row count of its first event, or 1 when no event of the day has an entry or the count is 0 |
| TimetableRows.BandRows | src/composables/timetable/TimetableBase.ts:182-193 | the row count of one day band, computed by `DayMaxRows`. It has no contract of its own; `BandRowsPositive` states that it is at least 1 when entries lie within their rows. `BandRowsOfPacking` states that it equals the day's packing rows. |
| TimetableRows.GetDayRowPositions | src/composables/timetable/TimetableBase.ts:173-199 | the array has one top per weekday. The first top is `HEADER_HEIGHT` and each later one adds `CELL_HEIGHT * rows` of the band above. |
| TimetableRows.DayTopStep | src/composables/timetable/TimetableBase.ts:195 | `positions[i + 1] = positions[i] + CELL_HEIGHT * m_i` |
| TimetableRows.DayTopsIncrease | src/composables/timetable/TimetableBase.ts:173-199 | with entries within their rows, each band starts at least one cell height below the previous one |
| TimetableRows.BandRowsOfPacking | src/composables/timetable/TimetableBase.ts:161-193 | with distinct ids, a day band is as many rows high as the day's packing has rows |
| TimetableFilter.Int32And | src/components/timetables/TimeTableFilter.ts:78 | `a & b` is a signed 32-bit number |
| TimetableFilter.AndBitsPositive | src/components/timetables/TimeTableFilter.ts:76-78 | a bitwise and is non-zero iff the operands share a set bit |
| TimetableFilter.PartialMatchSharesWeek | src/components/timetables/TimeTableFilter.ts:75-79 | for masks below bit 31, a partial match means the event and the filter share a week |
| TimetableFilter.PartialMatchNeedsWeeks | src/components/timetables/TimeTableFilter.ts:75-79 | in partial mode an event with mask 0, or a missing filter, keeps nothing |
| TimetableFilter.ExactMatchIsEquality | src/components/timetables/TimeTableFilter.ts:72-74 | in exact mode an event is kept iff its mask equals the filter's |
| TimetableFilter.WeekPatternMatch | src/components/timetables/TimeTableFilter.ts:69-80 | models `applyWeekPatternMatch`. It has no contract of its own; `ExactMatchIsEquality`, `PartialMatchSharesWeek` and `PartialMatchNeedsWeeks` state what it keeps. |
| TimetableFilter.NominalSemesterSpec | src/components/timetables/TimeTableFilter.ts:82-92 | defined exactly on 1bc, 2bc, 3bc, 1i and 2i; year `n` gives `2n` in `LS` and `2n - 1` otherwise |
| TimetableFilter.NominalSemester | src/components/timetables/TimeTableFilter.ts:82-92 | models `nominalSemester`. It has no contract of its own; `NominalSemesterSpec` states the table. |
| TimetableFilter.LevelRules | src/components/timetables/TimeTableFilter.ts:37-45 | a bachelor subject is one whose code does not start with `I-`, and a master subject one whose code does not start with `B-`. Every code is at least one of the two. |
| TimetableFilter.IsBachelorSubject | src/components/timetables/TimeTableFilter.ts:37-40 | models `isBachelorSubject`. It has no contract of its own; `LevelRules` states that it rejects exactly the `I-` codes. |
| TimetableFilter.IsMasterSubject | src/components/timetables/TimeTableFilter.ts:42-45 | models `isMasterSubject`. It has no contract of its own; `LevelRules` states that it rejects exactly the `B-` codes. |
| TimetableFilter.FindSubject | src/components/timetables/TimeTableFilter.ts:50 | the first subject with that id, or none when there is none |
| TimetableFilter.IsSubjectInGroup | src/components/timetables/TimeTableFilter.ts:24-35 | vacuously true without a subject or group name; otherwise some group with that name lists the subject |
| TimetableFilter.ParallelsFilterSpec | src/components/timetables/TimeTableFilter.ts:47-67 | an event is kept iff it names a known subject whose code lacks the other level's prefix and whose nominal semester is the selected one. When a group is selected, the subject must also be in it. |
| TimetableFilter.ApplyParallelsFilter | src/components/timetables/TimeTableFilter.ts:47-67 | models `applyParallelsFilter`. It has no contract of its own; `ParallelsFilterSpec` states exactly which events it keeps. |
| TimetableFilter.FilteredEventsSpec | src/components/timetables/TimeTableFilter.ts:94-109 | the output is an order-preserving subsequence. An event is kept iff it passes the week filter and the view's filter. In `rooms` view that filter is the preferred room (none without one), and any other view adds no filter. |
| TimetableFilter.FilteredEvents | src/components/timetables/TimeTableFilter.ts:94-109 | models `filteredEvents`. It has no contract of its own; `FilteredEventsSpec` states its output. |
| TimetableFilter.FilteredEventTemplatesSpec | src/components/timetables/TimeTableFilter.ts:112-122 | no week filter is applied. Only the parallels view filters, and every other view is the identity. |
| TimetableFilter.FilteredEventTemplates | src/components/timetables/TimeTableFilter.ts:112-122 | models `filteredEventTemplates`. It has no contract of its own; `FilteredEventTemplatesSpec` states its output. |
| TimetableStyle.CellRowsIsBandRows | src/components/timetables/TimeTableStyle.ts:84-87 | the cell, label and container styles read the same row count as the band tops |
| TimetableStyle.Readonly | src/components/timetables/TimeTableStyle.ts:36 | the editor is read-only exactly when it has no conflict checker. It has no contract of its own; `EventStyleSpec` states that the event cursor is `auto` exactly then. |
| TimetableStyle.EventStyleSpec | src/components/timetables/TimeTableStyle.ts:40-75 | no style without a day, start and end. Otherwise the box spans the event's slot columns less 4 px and is `CELL_HEIGHT - 4` high. It takes the event's recorded row (row 0 of 1 when none) and sits at its day band's top. The cursor is `auto` iff read-only. |
| TimetableStyle.EventStyleWithinBand | src/components/timetables/TimeTableStyle.ts:50-55 | with the packer's positions every styled event lies in a row of its band |
| TimetableStyle.GetEventStyle | src/components/timetables/TimeTableStyle.ts:40-75 | models the integer parts of `getEventStyle`. It has no contract of its own; `EventStyleSpec` and `EventStyleWithinBand` state the box. |
| TimetableStyle.BackgroundSpec | src/components/timetables/TimeTableStyle.ts:91-146 | dark orange iff the cell is in the dragged span and the drag has a room conflict. Otherwise an in-span cell is blue iff the dragged event fits in the slot table from the hovered slot, else red. Out-of-span cells are transparent, and so are all cells without a drag or outside the weekdays. Light orange never occurs. |
| TimetableStyle.IsDraggedOver | src/components/timetables/TimeTableStyle.ts:91-97 | models `isDraggedOver`: a drag is active, the hovered day is the cell's weekday, and the cell lies in the dragged event's slots. It has no contract of its own; `BackgroundSpec` states the colours in terms of it. |
| TimetableStyle.Background | src/components/timetables/TimeTableStyle.ts:110-146 | models the `backgroundColor` choice of `getCellStyle`. It has no contract of its own; `BackgroundSpec` states it completely. |
| TimetableStyle.BandHeight | src/components/timetables/TimeTableStyle.ts:168-178 | a day's cell and label height takes the band from its top to the next band's top |
| TimetableStyle.CellsFillBand | src/components/timetables/TimeTableStyle.ts:77-104 | a day's cells and label start at its band top, end where the next band starts, and sit under the matching header columns |
| TimetableStyle.GetCellStyle | src/components/timetables/TimeTableStyle.ts:77-148 | models the integer geometry and background of `getCellStyle`. It has no contract of its own; `CellsFillBand` and `BandHeight` state the box. |
| TimetableStyle.GetDayStyle | src/components/timetables/TimeTableStyle.ts:168-194 | models the integer geometry of the editor's `getDayStyle`. It has no contract of its own; `CellsFillBand` and `BandHeight` state the box. |
| TimetableStyle.ContainerEndsWithBands | src/components/timetables/TimeTableStyle.ts:209-236 | the container ends at the bottom of the last band and the right edge of the last slot column |
| TimetableStyle.GetContainerStyle | src/components/timetables/TimeTableStyle.ts:209-236 | models the integer sizes of `containerStyle`. It has no contract of its own; `ContainerEndsWithBands` states them. |
| Constraints.TransformToNested | src/store/constraints.ts:14-46 | fills the map, links the listed children, and returns exactly the specification result `NestedOf` |
| Constraints.NestedOfSpec | src/store/constraints.ts:14-46 | the result is null iff the list is empty or no constraint has id `rootId`. It has one node per id and the root keyed `rootId`. A node's parent is the last constraint listing it, or null. With distinct ids, each node keeps its constraint's fields, and its nested children are the listed child ids that exist, in listed order. |
| Constraints.InitArenaSpec | src/store/constraints.ts:20-27 | the first loop makes one fresh node per id, with no children and no parent |
| Constraints.LinkAllChildren | src/store/constraints.ts:30-43 | the second loop appends to each node the existing children listed by constraints with its id |
| Constraints.LinkAllParent | src/store/constraints.ts:35-39 | the second loop leaves each node with the last constraint listing it as its parent |
| Constraints.LastParentSpec | src/store/constraints.ts:35-39 | that parent is absent iff no constraint lists the node, and otherwise is the last one that does |
| Constraints.FindRootConstraint | src/store/constraints.ts:221-226 | the first `ROOT` constraint targeting that user, or none iff there is none |
| Constraints.ProcessConstraint | src/store/constraints.ts:248-269 | appends the node's record, then each child's records with the node's id as parent, giving the pre-order listing |
| Constraints.TransformToFlat | src/store/constraints.ts:242-273 | no tree gives `[]`; otherwise the result is the pre-order listing with the root parentless |
| Constraints.TransformToFlatSpec | src/store/constraints.ts:248-271 | one record per node. The root comes first, without a parent, listing its children's ids (`id \|\| 0`). Every later record hangs under an earlier one that lists it. |
| Constraints.PreOrderSize | src/store/constraints.ts:261-268 | the pre-order listing has exactly one record per node |
| Constraints.PreOrderLinked | src/store/constraints.ts:252-268 | each record after the first has as parent an earlier record whose children list it |
| RoomGroups.GroupsByName | src/store/roomGroups.ts:129-138 | the `forEach` builds exactly the specification object `Buckets` |
| RoomGroups.GroupsByNamePartition | src/store/roomGroups.ts:129-138 | the keys are the unique names, in first-occurrence order. Each name's array holds exactly that name's groups, in list order. |
| RoomGroups.UniqueGroupNames | src/store/roomGroups.ts:141-143 | it lists the same names as the list, each once, in first-occurrence order |
| RoomGroups.GetRoomGroups | src/store/roomGroups.ts:153-155 | exactly the groups holding the room, in list order |
| RoomGroups.GetRoomsByGroupName | src/store/roomGroups.ts:158-162 | one room per group with that name |
| RoomGroups.RoomsByGroupNameMembers | src/store/roomGroups.ts:146-162 | the rooms listed for a name are exactly those `isRoomInGroup` accepts for it |
| RoomGroups.RoomsByGroupNameBuckets | src/store/roomGroups.ts:129-162 | the rooms listed for a name are the rooms of that name's array in `groupsByName`, and there are none for an unknown name |
| RoomGroups.RoomGroupsSpec | src/store/roomGroups.ts:146-155 | a room is in a named group iff that name is among the names of the room's groups |
| RoomGroups.IsRoomInGroup | src/store/roomGroups.ts:146-150 | models `isRoomInGroup`. It has no contract of its own; `RoomsByGroupNameMembers` and `RoomGroupsSpec` tie it to `getRoomsByGroupName` and `getRoomGroups`. |
| RoomGroups.EntryOrderSpec | src/store/roomGroups.ts:168 | `Object.entries` lists the same keys, each once when they are distinct. Array-index keys come first, in numeric order, and the other keys keep their creation order. |
| RoomGroups.GroupOptions | src/store/roomGroups.ts:165-177 | the loop pushes one option per entry of `groupsByName`, returning exactly `GroupOptionsOf` |
| RoomGroups.GroupOptionsAt | src/store/roomGroups.ts:165-177 | the labels are the unique names in entry order. Each value equals its label, and each count is the number of groups with that name. |
| RoomGroups.GroupOptionNames | src/store/roomGroups.ts:165-177 | every unique name has exactly one option |
| RoomGroups.GroupOptionsPositive | src/store/roomGroups.ts:165-177 | every count is at least one |
| RoomGroups.GroupOptionsSum | src/store/roomGroups.ts:165-177 | the counts add up to the number of groups |
| RoomGroups.AsWrittenThrowsOnInheritedNames | src/store/roomGroups.ts:131-136 | as written, `groupsByName` throws iff some group is named after an `Object.prototype` property, and otherwise builds `Buckets` |
| RoomGroups.ConstructorNameThrows | src/store/roomGroups.ts:131-136 | a single group named `constructor` makes it throw |

## Left out

- I/O and network: every fetch/create/update/delete of the stores, and `createDefaultConstraint` in `getPersonConstraints`. These follow network responses.
- Authentication, the router, the settings store, the cross-tab worker and the shared state. These are browser wiring and concurrency. The settings that the styles read are a `TimetableConfig` parameter.
- Vue reactivity: each `computed` is a function of its inputs, recomputed on demand.
- The callbacks `timeToIndex` and `getEventDuration` that the conflict and style composables receive are function parameters.
- Floating point: `rowSpacing` and `topOffset` in `getEventStyle` (the model keeps the row and row count they are computed from), the opacity values (an enumeration), and the colours of `getColorFromString`.
- Display-only fields of calendar events: title, shortcut, colour and room name. The subject name and code lookups of the normaliser and its `weekType` classification (its `isPattern` helper is not part of this model) are left out too.
- CSS strings: each style is a record of its integer pixel values. Borders, fonts and colours are not modelled.
- `null` and `undefined` are merged into `None`. Where JavaScript treats them differently, the model follows `null`. For example, `Math.min(undefined, n)` is `NaN`, so an undefined stored start has no slot; the model treats it as 0, the way `null` behaves.
- The `catch` branch of `checkConflicts`: no operation of the model throws there, so the branch cannot be reached.
- The `-1` branch of `calculateEndTime` cannot be reached, since `timeToIndex` never returns -1. The model has no such branch.
- The copy of the slot loop in `TimetableBase.ts` is modelled by running the same generator on `DEFAULT_TIME_CONFIG`. The `@/lib/timetable` module it imports from is not part of this model; it is taken to be `src/utils/timetable.ts`.
- `transformToNested` nodes are shared mutable objects. The model keeps them in an arena keyed by id and does not model other aliasing of those objects.
- Constraints.TransformToFlat: takes its input as a finite tree value. A cyclic object graph, which the source would recurse on forever, cannot be expressed.
- Constraints.NestedOfSpec: states node contents only when constraint ids are distinct. With duplicate ids the last constraint with an id supplies its node, and the children lists of all constraints with that id are appended to it.
- TimetableRows.EventPosition: needs distinct event ids, as do TimetableRows.RowPositionsDisjoint and TimetableRows.BandRowsOfPacking. With repeated ids the source's map keeps only the last entry written for an id.
- Timetable.GenerateTimeSlots: states the closed-form table only for a start minute in [0, 59], a non-negative slot length and a non-negative step. For other configurations it states only the slot count and indices.
- Optimality of the row packing (that `maxRows` equals the largest number of mutually overlapping events of a day) is not proved.

## Findings

| source | as written | input that shows it | evidently intended | confidence | as-written member | corrected member |
|---|---|---|---|---|---|---|
| src/store/roomGroups.ts:131-136 | `groups` is a plain `{}`, so `groups[group.name]` also finds names inherited from `Object.prototype`. For such a name no array is created, `??=` keeps the inherited value, and `.push` throws a `TypeError`. | one room group named `constructor` (or `toString`, `__proto__`, …) | every name gets its own array; a group named `constructor` is grouped like any other | medium, not executed | RoomGroups.AsWrittenThrowsOnInheritedNames | RoomGroups.GroupsByName |
