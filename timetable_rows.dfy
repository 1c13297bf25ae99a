/** The row layout of src/composables/timetable/TimetableBase.ts: `getRowEventPositions`
    packs each day's events into rows so that events sharing a row do not overlap, and
    `getDayRowPositions` stacks the day bands below the header. */
module TimetableRows {
  import opened Wrappers
  import opened CalendarTypes
  import opened Seqs
  import opened Timetable
  import opened TimetableBase

  /** The entry of an event in the positions map: its row within its day and the number of
      rows of that day. */
  datatype Position = Position(row: int, maxRows: int)

  type Positions = map<Option<int>, Position>

  /** The events of one day. */
  function DayIs(d: Option<string>): CalendarEvent -> bool {
    (e: CalendarEvent) => e.day == d
  }

  /** The distinct days of `events`, in the order in which they first occur. */
  function DaysOf(events: seq<CalendarEvent>): seq<Option<string>> {
    Dedup(Map(events, (e: CalendarEvent) => e.day))
  }

  /** `_.groupBy(events, 'day')` read back with `Object.entries`: one group per distinct
      day, each holding that day's events in their order. */
  function DayGroups(events: seq<CalendarEvent>): seq<seq<CalendarEvent>> {
    Map(DaysOf(events), (d: Option<string>) => Filter(events, DayIs(d)))
  }

  /** The groups partition the events by day: group `k` holds exactly the events of the
      `k`-th distinct day, the days are distinct, and every event's day has a group. */
  lemma DayGroupsPartition(events: seq<CalendarEvent>)
    ensures |DayGroups(events)| == |DaysOf(events)|
    ensures Distinct(DaysOf(events))
    ensures forall k :: 0 <= k < |DaysOf(events)| ==>
              forall e :: e in DayGroups(events)[k] <==> e in events && e.day == DaysOf(events)[k]
    ensures forall e :: e in events ==> e.day in DaysOf(events)
  {
    var days := Map(events, (e: CalendarEvent) => e.day);
    DedupSpec(days);
    forall k | 0 <= k < |DaysOf(events)|
      ensures forall e :: e in DayGroups(events)[k] <==> e in events && e.day == DaysOf(events)[k]
    {
      FilterMembers(events, DayIs(DaysOf(events)[k]));
    }
    forall e | e in events
      ensures e.day in DaysOf(events)
    {
      var i :| 0 <= i < |events| && events[i] == e;
      assert days[i] == e.day;
    }
  }

  /** The sort key of the day's events: the start slot, a missing start counting as 0. */
  function SortKey(slots: seq<TimeSlot>): CalendarEvent -> int {
    (e: CalendarEvent) => TimeToIndex(slots, e.start_time).GetOr(0)
  }

  /** `slots.findIndex(slot => slot.from === event.start_time)`. */
  function StartIndex(slots: seq<TimeSlot>, e: CalendarEvent): int {
    FindIndex(slots, (s: TimeSlot) => Some(s.from) == e.start_time)
  }

  /** `slots.findIndex(slot => slot.to === event.end_time)`. */
  function EndIndex(slots: seq<TimeSlot>, e: CalendarEvent): int {
    FindIndex(slots, (s: TimeSlot) => Some(s.to) == e.end_time)
  }

  /** Some occupant of `row` ends at or after the slot `start`. */
  predicate Overlaps(slots: seq<TimeSlot>, row: seq<CalendarEvent>, start: int) {
    exists k :: 0 <= k < |row| && start <= EndIndex(slots, row[k])
  }

  /** The first row from `from` on that the new event fits into, or `|rows|` for a new row. */
  function FirstFit(slots: seq<TimeSlot>, rows: seq<seq<CalendarEvent>>, start: int, from: nat): (r: nat)
    requires from <= |rows|
    ensures from <= r <= |rows|
    ensures r < |rows| ==> !Overlaps(slots, rows[r], start)
    ensures forall k :: from <= k < r ==> Overlaps(slots, rows[k], start)
    decreases |rows| - from
  {
    if from == |rows| || !Overlaps(slots, rows[from], start) then from
    else FirstFit(slots, rows, start, from + 1)
  }

  /** Appends `e` to row `r`, opening a new row when `r` is one past the last. */
  function Place(rows: seq<seq<CalendarEvent>>, r: nat, e: CalendarEvent): seq<seq<CalendarEvent>>
    requires r <= |rows|
  {
    if r == |rows| then rows + [[e]] else rows[r := rows[r] + [e]]
  }

  /** The rows after placing the events of a day one by one, and the row each went to. */
  datatype Packing = Packing(rows: seq<seq<CalendarEvent>>, assign: seq<int>)

  function Pack(slots: seq<TimeSlot>, sorted: seq<CalendarEvent>): (p: Packing)
    ensures |p.assign| == |sorted|
    ensures forall i :: 0 <= i < |sorted| ==> 0 <= p.assign[i] < |p.rows|
    decreases |sorted|
  {
    if sorted == [] then Packing([], [])
    else
      var p := Pack(slots, sorted[..|sorted| - 1]);
      var e := sorted[|sorted| - 1];
      var r := FirstFit(slots, p.rows, StartIndex(slots, e), 0);
      Packing(Place(p.rows, r, e), p.assign + [r])
  }

  /** The events assigned to row `r`, in order. */
  function RowOf(sorted: seq<CalendarEvent>, assign: seq<int>, r: int): seq<CalendarEvent>
    requires |assign| == |sorted|
    decreases |sorted|
  {
    if sorted == [] then []
    else
      RowOf(sorted[..|sorted| - 1], assign[..|assign| - 1], r)
        + (if assign[|assign| - 1] == r then [sorted[|sorted| - 1]] else [])
  }

  lemma {:induction false} RowOfEmpty(sorted: seq<CalendarEvent>, assign: seq<int>, r: int)
    requires |assign| == |sorted| && forall i :: 0 <= i < |assign| ==> assign[i] != r
    ensures RowOf(sorted, assign, r) == []
    decreases |sorted|
  {
    if sorted != [] {
      RowOfEmpty(sorted[..|sorted| - 1], assign[..|assign| - 1], r);
    }
  }

  /** An event is in row `r` exactly when some position holding it was assigned `r`. */
  lemma {:induction false} RowOfMembers(sorted: seq<CalendarEvent>, assign: seq<int>, r: int, o: CalendarEvent)
    requires |assign| == |sorted|
    ensures o in RowOf(sorted, assign, r) <==> exists i :: 0 <= i < |sorted| && assign[i] == r && sorted[i] == o
    decreases |sorted|
  {
    if sorted != [] {
      var n := |sorted| - 1;
      var s', a' := sorted[..n], assign[..n];
      RowOfMembers(s', a', r, o);
      var tail := if assign[n] == r then [sorted[n]] else [];
      assert RowOf(sorted, assign, r) == RowOf(s', a', r) + tail;
      if o in RowOf(sorted, assign, r) {
        if o in RowOf(s', a', r) {
          var i :| 0 <= i < |s'| && a'[i] == r && s'[i] == o;
          assert assign[i] == r && sorted[i] == o;
        } else {
          assert o in tail;
          assert assign[n] == r && sorted[n] == o;
        }
      }
      if exists i :: 0 <= i < |sorted| && assign[i] == r && sorted[i] == o {
        var i :| 0 <= i < |sorted| && assign[i] == r && sorted[i] == o;
        if i < n {
          assert s'[i] == o && a'[i] == r;
          assert o in RowOf(s', a', r);
        } else {
          assert o in tail;
        }
      }
    }
  }

  /** The rows of a packing are exactly the events grouped by the row they were assigned. */
  lemma {:induction false} PackRows(slots: seq<TimeSlot>, sorted: seq<CalendarEvent>)
    ensures var p := Pack(slots, sorted);
            |p.rows| <= |sorted|
            && forall r :: 0 <= r < |p.rows| ==> p.rows[r] == RowOf(sorted, p.assign, r)
    decreases |sorted|
  {
    if sorted != [] {
      var n := |sorted| - 1;
      var s' := sorted[..n];
      var p' := Pack(slots, s');
      var e := sorted[n];
      var r := FirstFit(slots, p'.rows, StartIndex(slots, e), 0);
      PackRows(slots, s');
      assert sorted == s' + [e];
      PlaceRows(s', p'.rows, p'.assign, e, r);
    }
  }

  /** Placing one more event keeps the rows equal to the events grouped by their row. */
  lemma PlaceRows(sorted: seq<CalendarEvent>, rows: seq<seq<CalendarEvent>>, assign: seq<int>, e: CalendarEvent, r: nat)
    requires |assign| == |sorted| && |rows| <= |sorted| && r <= |rows|
    requires forall i :: 0 <= i < |assign| ==> 0 <= assign[i] < |rows|
    requires forall q :: 0 <= q < |rows| ==> rows[q] == RowOf(sorted, assign, q)
    ensures var rows', assign' := Place(rows, r, e), assign + [r];
            |rows'| <= |sorted| + 1
            && forall q :: 0 <= q < |rows'| ==> rows'[q] == RowOf(sorted + [e], assign', q)
  {
    var rows', assign' := Place(rows, r, e), assign + [r];
    assert (sorted + [e])[..|sorted|] == sorted && assign'[..|assign|] == assign;
    forall q | 0 <= q < |rows'|
      ensures rows'[q] == RowOf(sorted + [e], assign', q)
    {
      if q == |rows| {
        RowOfEmpty(sorted, assign, q);
      }
    }
  }

  /** Packing a prefix gives the prefix of the row assignment. */
  lemma {:induction false} PackPrefix(slots: seq<TimeSlot>, sorted: seq<CalendarEvent>, j: nat)
    requires j <= |sorted|
    ensures Pack(slots, sorted[..j]).assign == Pack(slots, sorted).assign[..j]
    decreases |sorted|
  {
    if j < |sorted| {
      var n := |sorted| - 1;
      assert sorted[..n][..j] == sorted[..j];
      PackPrefix(slots, sorted[..n], j);
    } else {
      assert sorted[..j] == sorted;
    }
  }

  /** Event `j` went to the first row, as the rows stood when it was placed, in which it
      overlaps no occupant. */
  lemma PackStep(slots: seq<TimeSlot>, sorted: seq<CalendarEvent>, j: nat)
    requires j < |sorted|
    ensures Pack(slots, sorted).assign[j]
            == FirstFit(slots, Pack(slots, sorted[..j]).rows, StartIndex(slots, sorted[j]), 0)
  {
    PackPrefix(slots, sorted, j + 1);
    assert sorted[..j + 1][..j] == sorted[..j];
  }

  /** Two events of the same row do not overlap: the later one starts after the earlier
      one ends. */
  lemma SameRowDisjoint(slots: seq<TimeSlot>, sorted: seq<CalendarEvent>, i: nat, j: nat)
    requires i < j < |sorted|
    requires Pack(slots, sorted).assign[i] == Pack(slots, sorted).assign[j]
    ensures StartIndex(slots, sorted[j]) > EndIndex(slots, sorted[i])
  {
    var a := Pack(slots, sorted).assign;
    var pj := Pack(slots, sorted[..j]);
    PackStep(slots, sorted, j);
    PackPrefix(slots, sorted, j);
    PackRows(slots, sorted[..j]);
    assert pj.assign[i] == a[i] && sorted[..j][i] == sorted[i];
    RowOfMembers(sorted[..j], pj.assign, a[i], sorted[i]);
    var k :| 0 <= k < |pj.rows[a[i]]| && pj.rows[a[i]][k] == sorted[i];
  }

  /** First fit: an event was put below row `r` only because some earlier event of row `r`
      had not ended before it starts. */
  lemma FirstFitMinimal(slots: seq<TimeSlot>, sorted: seq<CalendarEvent>, j: nat, r: nat)
    requires j < |sorted| && r < Pack(slots, sorted).assign[j]
    ensures exists i :: 0 <= i < j && Pack(slots, sorted).assign[i] == r
                        && StartIndex(slots, sorted[j]) <= EndIndex(slots, sorted[i])
  {
    var a := Pack(slots, sorted).assign;
    var pj := Pack(slots, sorted[..j]);
    PackStep(slots, sorted, j);
    PackPrefix(slots, sorted, j);
    PackRows(slots, sorted[..j]);
    var k :| 0 <= k < |pj.rows[r]| && StartIndex(slots, sorted[j]) <= EndIndex(slots, pj.rows[r][k]);
    var o := pj.rows[r][k];
    RowOfMembers(sorted[..j], pj.assign, r, o);
    var i :| 0 <= i < j && pj.assign[i] == r && sorted[..j][i] == o;
    assert a[i] == r && sorted[i] == o;
  }

  /** Every row of a packing holds some event. */
  lemma RowsOccupied(slots: seq<TimeSlot>, sorted: seq<CalendarEvent>, r: nat)
    requires r < |Pack(slots, sorted).rows|
    ensures exists i :: 0 <= i < |sorted| && Pack(slots, sorted).assign[i] == r
  {
    var p := Pack(slots, sorted);
    PackRows(slots, sorted);
    if forall i :: 0 <= i < |sorted| ==> p.assign[i] != r {
      RowOfEmpty(sorted, p.assign, r);
      RowsNonEmpty(slots, sorted, r);
    }
  }

  lemma {:induction false} RowsNonEmpty(slots: seq<TimeSlot>, sorted: seq<CalendarEvent>, r: nat)
    requires r < |Pack(slots, sorted).rows|
    ensures Pack(slots, sorted).rows[r] != []
    decreases |sorted|
  {
    var n := |sorted| - 1;
    var p' := Pack(slots, sorted[..n]);
    if r < |p'.rows| {
      RowsNonEmpty(slots, sorted[..n], r);
    }
  }

  /** The day's events in the order they are packed: stably sorted by start slot. */
  function SortedDay(slots: seq<TimeSlot>, dayEvents: seq<CalendarEvent>): seq<CalendarEvent> {
    SortBy(dayEvents, SortKey(slots))
  }

  /** `eventPositions.set(event.id, { row, maxRows: 0 })` for each packed event in turn. */
  function SetRows(m: Positions, sorted: seq<CalendarEvent>, assign: seq<int>): Positions
    requires |assign| == |sorted|
    decreases |sorted|
  {
    if sorted == [] then m
    else
      SetRows(m, sorted[..|sorted| - 1], assign[..|assign| - 1])
        [sorted[|sorted| - 1].id := Position(assign[|assign| - 1], 0)]
  }

  /** `position.maxRows = maxRows` for the entry of each event of the day that has one. */
  function SetMax(m: Positions, sorted: seq<CalendarEvent>, maxRows: int): Positions
    decreases |sorted|
  {
    if sorted == [] then m
    else
      var m' := SetMax(m, sorted[..|sorted| - 1], maxRows);
      var id := sorted[|sorted| - 1].id;
      if id in m' then m'[id := Position(m'[id].row, maxRows)] else m'
  }

  /** The entries of one day: its events packed into rows, each entered with its row and
      the day's row count. */
  function DayPositions(slots: seq<TimeSlot>, m: Positions, dayEvents: seq<CalendarEvent>): Positions {
    var sorted := SortedDay(slots, dayEvents);
    var p := Pack(slots, sorted);
    SetMax(SetRows(m, sorted, p.assign), sorted, |p.rows|)
  }

  /** One day of `Object.entries(eventsByDay).forEach`, as a step on the positions map. */
  function DayStep(slots: seq<TimeSlot>): (Positions, seq<CalendarEvent>) -> Positions {
    (m: Positions, dayEvents: seq<CalendarEvent>) => DayPositions(slots, m, dayEvents)
  }

  /** The positions after entering the day groups one after another, from `m` on. */
  function PositionsFrom(slots: seq<TimeSlot>, m: Positions, groups: seq<seq<CalendarEvent>>): Positions {
    FoldMap(DayStep(slots), m, groups)
  }

  /** `getRowEventPositions`, day group after day group. */
  function RowPositions(slots: seq<TimeSlot>, events: seq<CalendarEvent>): Positions {
    PositionsFrom(slots, map[], DayGroups(events))
  }

  /** The row search of one event: the `while (!foundRow)` loop, which opens a new (empty)
      row when it runs past the last one. */
  method FindRow(slots: seq<TimeSlot>, rows0: seq<seq<CalendarEvent>>, startIndex: int)
    returns (rows: seq<seq<CalendarEvent>>, rowIndex: nat)
    ensures rowIndex == FirstFit(slots, rows0, startIndex, 0)
    ensures rows == if rowIndex == |rows0| then rows0 + [[]] else rows0
  {
    rows := rows0;
    rowIndex := 0;
    var foundRow := false;
    while !foundRow
      invariant 0 <= rowIndex <= |rows0|
      invariant !foundRow ==>
                  rows == rows0 && FirstFit(slots, rows0, startIndex, rowIndex) == FirstFit(slots, rows0, startIndex, 0)
      invariant foundRow ==>
                  rowIndex == FirstFit(slots, rows0, startIndex, 0)
                  && rows == if rowIndex == |rows0| then rows0 + [[]] else rows0
      decreases if foundRow then 0 else 1, |rows0| - rowIndex
    {
      if rowIndex == |rows| {
        rows := rows + [[]];
        foundRow := true;
      } else {
        var overlaps := Overlaps(slots, rows[rowIndex], startIndex);
        if !overlaps {
          foundRow := true;
        } else {
          rowIndex := rowIndex + 1;
        }
      }
    }
  }

  /** Pushing onto the row found (an empty new row when past the last) is `Place`. */
  lemma PushIsPlace(rows: seq<seq<CalendarEvent>>, r: nat, e: CalendarEvent)
    requires r <= |rows|
    ensures var rows' := if r == |rows| then rows + [[]] else rows;
            rows'[r := rows'[r] + [e]] == Place(rows, r, e)
  {
    if r == |rows| {
      var rows' := rows + [[]];
      var e1: seq<CalendarEvent> := [];
      assert rows'[r] == e1 && e1 + [e] == [e];
      var lhs := rows'[r := [e]];
      assert |lhs| == |rows + [[e]]|;
      assert forall k :: 0 <= k < |lhs| ==> lhs[k] == (rows + [[e]])[k];
    }
  }

  lemma PackSnoc(slots: seq<TimeSlot>, sorted: seq<CalendarEvent>, i: nat)
    requires i < |sorted|
    ensures var p := Pack(slots, sorted[..i]);
            var r := FirstFit(slots, p.rows, StartIndex(slots, sorted[i]), 0);
            Pack(slots, sorted[..i + 1]) == Packing(Place(p.rows, r, sorted[i]), p.assign + [r])
  {
    assert sorted[..i + 1][..i] == sorted[..i];
  }

  lemma SetRowsSnoc(m: Positions, sorted: seq<CalendarEvent>, assign: seq<int>, i: nat, r: int)
    requires i < |sorted| && |assign| == i
    ensures SetRows(m, sorted[..i + 1], assign + [r]) == SetRows(m, sorted[..i], assign)[sorted[i].id := Position(r, 0)]
  {
    assert sorted[..i + 1][..i] == sorted[..i];
    assert (assign + [r])[..i] == assign;
  }

  lemma SetMaxSnoc(m: Positions, sorted: seq<CalendarEvent>, maxRows: int, j: nat)
    requires j < |sorted|
    ensures var m' := SetMax(m, sorted[..j], maxRows);
            var id := sorted[j].id;
            SetMax(m, sorted[..j + 1], maxRows) == if id in m' then m'[id := Position(m'[id].row, maxRows)] else m'
  {
    assert sorted[..j + 1][..j] == sorted[..j];
  }

  /** The `sortedEvents.forEach` that packs the day: each event goes to the row the search
      finds and is entered with that row and `maxRows: 0`. */
  method PackEvents(slots: seq<TimeSlot>, m: Positions, sortedEvents: seq<CalendarEvent>)
    returns (rows: seq<seq<CalendarEvent>>, positions: Positions)
    ensures rows == Pack(slots, sortedEvents).rows
    ensures positions == SetRows(m, sortedEvents, Pack(slots, sortedEvents).assign)
  {
    rows := [];
    ghost var assign: seq<int> := [];
    positions := m;
    for i := 0 to |sortedEvents|
      invariant Pack(slots, sortedEvents[..i]) == Packing(rows, assign)
      invariant positions == SetRows(m, sortedEvents[..i], assign)
    {
      var event := sortedEvents[i];
      var startIndex := StartIndex(slots, event);
      var rows', rowIndex := FindRow(slots, rows, startIndex);
      PackSnoc(slots, sortedEvents, i);
      SetRowsSnoc(m, sortedEvents, assign, i, rowIndex);
      PushIsPlace(rows, rowIndex, event);
      rows := rows'[rowIndex := rows'[rowIndex] + [event]];
      positions := positions[event.id := Position(rowIndex, 0)];
      assign := assign + [rowIndex];
    }
    assert sortedEvents[..|sortedEvents|] == sortedEvents;
  }

  /** The second `sortedEvents.forEach`: every entry of the day gets the day's row count. */
  method SetMaxRows(entered: Positions, sortedEvents: seq<CalendarEvent>, maxRows: int)
    returns (positions: Positions)
    ensures positions == SetMax(entered, sortedEvents, maxRows)
  {
    positions := entered;
    for j := 0 to |sortedEvents|
      invariant positions == SetMax(entered, sortedEvents[..j], maxRows)
    {
      SetMaxSnoc(entered, sortedEvents, maxRows, j);
      var id := sortedEvents[j].id;
      if id in positions {
        positions := positions[id := Position(positions[id].row, maxRows)];
      }
    }
    assert sortedEvents[..|sortedEvents|] == sortedEvents;
  }

  /** The body of `Object.entries(eventsByDay).forEach` for one day: sort, pack, then set
      the row count. */
  method PlaceDay(slots: seq<TimeSlot>, m: Positions, dayEvents: seq<CalendarEvent>)
    returns (positions: Positions)
    ensures positions == DayPositions(slots, m, dayEvents)
  {
    var sortedEvents := SortBy(dayEvents, SortKey(slots));
    var rows, entered := PackEvents(slots, m, sortedEvents);
    positions := SetMaxRows(entered, sortedEvents, |rows|);
  }

  /** `getRowEventPositions`: one map of positions, filled day group by day group. */
  method GetRowEventPositions(slots: seq<TimeSlot>, filteredEvents: seq<CalendarEvent>)
    returns (eventPositions: Positions)
    ensures eventPositions == RowPositions(slots, filteredEvents)
  {
    var eventsByDay := DayGroups(filteredEvents);
    eventPositions := map[];
    for g := 0 to |eventsByDay|
      invariant eventPositions == PositionsFrom(slots, map[], eventsByDay[..g])
    {
      PositionsFromSnoc(slots, eventsByDay, g);
      eventPositions := PlaceDay(slots, eventPositions, eventsByDay[g]);
    }
    assert eventsByDay[..|eventsByDay|] == eventsByDay;
  }

  lemma PositionsFromSnoc(slots: seq<TimeSlot>, groups: seq<seq<CalendarEvent>>, g: nat)
    requires g < |groups|
    ensures PositionsFrom(slots, map[], groups[..g + 1])
            == DayPositions(slots, PositionsFrom(slots, map[], groups[..g]), groups[g])
  {
    assert groups[..g + 1][..g] == groups[..g];
  }

  /** The ids of a sequence of events. */
  function IdsOf(s: seq<CalendarEvent>): set<Option<int>> {
    set e | e in s :: e.id
  }

  /** Every entry lies within its day: `0 <= row < maxRows`. */
  predicate WithinRows(m: Positions) {
    forall id :: id in m ==> 0 <= m[id].row < m[id].maxRows
  }

  /** `SetRows` enters every id of the day with one of the assigned rows and `maxRows: 0`,
      and leaves the other entries alone. */
  lemma {:induction false} SetRowsEntries(m: Positions, sorted: seq<CalendarEvent>, assign: seq<int>, n: int)
    requires |assign| == |sorted| && forall i :: 0 <= i < |assign| ==> 0 <= assign[i] < n
    ensures var r := SetRows(m, sorted, assign);
            r.Keys == m.Keys + IdsOf(sorted)
            && (forall id :: id in r && id !in IdsOf(sorted) ==> r[id] == m[id])
            && (forall id :: id in IdsOf(sorted) ==> 0 <= r[id].row < n && r[id].maxRows == 0)
    decreases |sorted|
  {
    if sorted != [] {
      var k := |sorted| - 1;
      var s', a' := sorted[..k], assign[..k];
      SetRowsEntries(m, s', a', n);
      assert sorted == s' + [sorted[k]];
      assert IdsOf(sorted) == IdsOf(s') + {sorted[k].id};
    }
  }

  /** `SetMax` gives every entered id of the day the row count and keeps its row. */
  lemma {:induction false} SetMaxEntries(m: Positions, sorted: seq<CalendarEvent>, maxRows: int)
    ensures var r := SetMax(m, sorted, maxRows);
            r.Keys == m.Keys
            && forall id :: id in r ==>
                 r[id] == if id in IdsOf(sorted) then Position(m[id].row, maxRows) else m[id]
    decreases |sorted|
  {
    if sorted != [] {
      var k := |sorted| - 1;
      var s' := sorted[..k];
      SetMaxEntries(m, s', maxRows);
      assert sorted == s' + [sorted[k]];
      assert IdsOf(sorted) == IdsOf(s') + {sorted[k].id};
    }
  }

  /** Sorting a day keeps its events. */
  lemma SortedDayMembers(slots: seq<TimeSlot>, dayEvents: seq<CalendarEvent>)
    ensures IdsOf(SortedDay(slots, dayEvents)) == IdsOf(dayEvents)
    ensures forall e :: e in SortedDay(slots, dayEvents) <==> e in dayEvents
  {
    SortByPermutes(dayEvents, SortKey(slots));
    var s := SortedDay(slots, dayEvents);
    assert forall e :: e in s <==> e in multiset(s);
    assert forall e :: e in dayEvents <==> e in multiset(dayEvents);
  }

  /** One day keeps every entry within its rows, enters each of its events, and gives each
      of them the day's row count. */
  lemma DayPositionsEntries(slots: seq<TimeSlot>, m: Positions, dayEvents: seq<CalendarEvent>)
    requires WithinRows(m)
    ensures var r := DayPositions(slots, m, dayEvents);
            var p := Pack(slots, SortedDay(slots, dayEvents));
            WithinRows(r) && r.Keys == m.Keys + IdsOf(dayEvents)
            && (forall id :: id in r && id !in IdsOf(dayEvents) ==> r[id] == m[id])
            && (forall id :: id in IdsOf(dayEvents) ==> r[id].maxRows == |p.rows|)
  {
    var sorted := SortedDay(slots, dayEvents);
    var p := Pack(slots, sorted);
    SortedDayMembers(slots, dayEvents);
    SetRowsEntries(m, sorted, p.assign, |p.rows|);
    SetMaxEntries(SetRows(m, sorted, p.assign), sorted, |p.rows|);
  }

  /** One day leaves alone the entries of ids it does not hold. */
  lemma DayPositionsKeeps(slots: seq<TimeSlot>, m: Positions, dayEvents: seq<CalendarEvent>, id: Option<int>)
    requires id in m && id !in IdsOf(dayEvents)
    ensures id in DayPositions(slots, m, dayEvents) && DayPositions(slots, m, dayEvents)[id] == m[id]
  {
    var sorted := SortedDay(slots, dayEvents);
    var p := Pack(slots, sorted);
    SortedDayMembers(slots, dayEvents);
    SetRowsEntries(m, sorted, p.assign, |p.rows|);
    SetMaxEntries(SetRows(m, sorted, p.assign), sorted, |p.rows|);
  }

  /** One day keeps every entry within its rows and adds exactly the day's ids. */
  lemma DayPositionsKeys(slots: seq<TimeSlot>, m: Positions, dayEvents: seq<CalendarEvent>)
    requires WithinRows(m)
    ensures WithinRows(DayPositions(slots, m, dayEvents))
    ensures DayPositions(slots, m, dayEvents).Keys == m.Keys + IdsOf(dayEvents)
  {
    DayPositionsEntries(slots, m, dayEvents);
  }

  /** Every day keeps the entries within their rows. */
  lemma DayStepWithinRows(slots: seq<TimeSlot>)
    ensures forall m, dayEvents :: WithinRows(m) ==> WithinRows(DayStep(slots)(m, dayEvents))
  {
    forall m, dayEvents | WithinRows(m)
      ensures WithinRows(DayStep(slots)(m, dayEvents))
    {
      DayPositionsKeys(slots, m, dayEvents);
    }
  }

  /** Every day keeps the ids entered before it and enters its own. */
  lemma DayStepKeys(slots: seq<TimeSlot>)
    ensures forall m: Positions, dayEvents :: m.Keys + IdsOf(dayEvents) <= DayStep(slots)(m, dayEvents).Keys
  {
    forall m: Positions, dayEvents
      ensures m.Keys + IdsOf(dayEvents) <= DayStep(slots)(m, dayEvents).Keys
    {
      var sorted := SortedDay(slots, dayEvents);
      var p := Pack(slots, sorted);
      SortedDayMembers(slots, dayEvents);
      SetRowsEntries(m, sorted, p.assign, |p.rows|);
      SetMaxEntries(SetRows(m, sorted, p.assign), sorted, |p.rows|);
    }
  }

  /** After all day groups, every entry lies within its rows and every group's ids are
      entered. */
  lemma PositionsFromEntries(slots: seq<TimeSlot>, groups: seq<seq<CalendarEvent>>)
    ensures WithinRows(PositionsFrom(slots, map[], groups))
    ensures forall g :: 0 <= g < |groups| ==> IdsOf(groups[g]) <= PositionsFrom(slots, map[], groups).Keys
  {
    DayStepWithinRows(slots);
    FoldInvariant(DayStep(slots), WithinRows, map[], groups);
    DayStepKeys(slots);
    FoldKeys(DayStep(slots), map[], groups, IdsOf);
  }

  /** Every event of the view gets an entry, and every entry lies within its day's rows:
      `0 <= row < maxRows`. */
  lemma RowPositionsEntries(slots: seq<TimeSlot>, events: seq<CalendarEvent>)
    ensures WithinRows(RowPositions(slots, events))
    ensures forall e :: e in events ==> e.id in RowPositions(slots, events)
  {
    var groups := DayGroups(events);
    PositionsFromEntries(slots, groups);
    DayGroupsPartition(events);
    forall e | e in events
      ensures e.id in RowPositions(slots, events)
    {
      var k :| 0 <= k < |DaysOf(events)| && DaysOf(events)[k] == e.day;
      assert e in groups[k];
      assert e.id in IdsOf(groups[k]);
    }
  }

  /** The key of the positions map. */
  function Id(e: CalendarEvent): Option<int> {
    e.id
  }

  /** An id entered once keeps the row it was entered with. */
  lemma {:induction false} SetRowsUnique(m: Positions, sorted: seq<CalendarEvent>, assign: seq<int>, j: nat)
    requires |assign| == |sorted| && j < |sorted|
    requires forall i :: 0 <= i < |sorted| && i != j ==> sorted[i].id != sorted[j].id
    ensures sorted[j].id in SetRows(m, sorted, assign)
    ensures SetRows(m, sorted, assign)[sorted[j].id] == Position(assign[j], 0)
    decreases |sorted|
  {
    var k := |sorted| - 1;
    if j < k {
      var s', a' := sorted[..k], assign[..k];
      assert s'[j] == sorted[j] && a'[j] == assign[j];
      SetRowsUnique(m, s', a', j);
    }
  }

  /** Within a day whose ids are distinct, each event's entry holds the row it was packed
      into and the day's row count. */
  lemma DayEntryUnique(slots: seq<TimeSlot>, m: Positions, dayEvents: seq<CalendarEvent>, j: nat)
    requires j < |SortedDay(slots, dayEvents)| && Injective(SortedDay(slots, dayEvents), Id)
    ensures var sorted := SortedDay(slots, dayEvents);
            var p := Pack(slots, sorted);
            var r := DayPositions(slots, m, dayEvents);
            sorted[j].id in r && r[sorted[j].id] == Position(p.assign[j], |p.rows|)
  {
    var sorted := SortedDay(slots, dayEvents);
    var p := Pack(slots, sorted);
    forall i | 0 <= i < |sorted| && i != j
      ensures sorted[i].id != sorted[j].id
    {
      assert Id(sorted[i]) != Id(sorted[j]);
    }
    SetRowsUnique(m, sorted, p.assign, j);
    SetMaxEntries(SetRows(m, sorted, p.assign), sorted, |p.rows|);
    assert sorted[j].id in IdsOf(sorted);
  }

  /** Days after group `k` leave alone an id none of them holds. */
  lemma PositionsFromKeeps(slots: seq<TimeSlot>, groups: seq<seq<CalendarEvent>>, k: nat, id: Option<int>)
    requires k < |groups| && id in PositionsFrom(slots, map[], groups[..k + 1])
    requires forall g :: k < g < |groups| ==> id !in IdsOf(groups[g])
    ensures id in PositionsFrom(slots, map[], groups)
    ensures PositionsFrom(slots, map[], groups)[id] == PositionsFrom(slots, map[], groups[..k + 1])[id]
  {
    var done, rest := groups[..k + 1], groups[k + 1..];
    assert groups == done + rest;
    FoldAppend(DayStep(slots), map[], done, rest);
    forall i, m | 0 <= i < |rest| && id in m
      ensures id in DayStep(slots)(m, rest[i]) && DayStep(slots)(m, rest[i])[id] == m[id]
    {
      assert rest[i] == groups[k + 1 + i];
      DayPositionsKeeps(slots, m, rest[i], id);
    }
    FoldKeepsKey(DayStep(slots), PositionsFrom(slots, map[], done), rest, id);
  }

  /** The group of an event's day, and no later group holds its id when ids are distinct. */
  lemma GroupOfEvent(events: seq<CalendarEvent>, e: CalendarEvent) returns (k: nat)
    requires Injective(events, Id) && e in events
    ensures k < |DayGroups(events)| && DayGroups(events)[k] == Filter(events, DayIs(e.day))
    ensures forall g :: k < g < |DayGroups(events)| ==> e.id !in IdsOf(DayGroups(events)[g])
  {
    var groups := DayGroups(events);
    var days := DaysOf(events);
    DayGroupsPartition(events);
    k :| 0 <= k < |days| && days[k] == e.day;
    forall g | k < g < |groups|
      ensures e.id !in IdsOf(groups[g])
    {
      assert groups[g] == Filter(events, DayIs(days[g])) && days[g] != days[k];
      OtherDayIds(events, e, days[g]);
    }
  }

  /** With distinct ids, the events of another day do not hold the id of `e`. */
  lemma OtherDayIds(events: seq<CalendarEvent>, e: CalendarEvent, d: Option<string>)
    requires Injective(events, Id) && e in events && e.day != d
    ensures e.id !in IdsOf(Filter(events, DayIs(d)))
  {
    FilterMembers(events, DayIs(d));
    forall x | x in Filter(events, DayIs(d))
      ensures x.id != e.id
    {
      InjectiveMembers(events, Id, x, e);
    }
  }

  /** Distinct ids stay distinct within a sorted day. */
  lemma SortedDayInjective(slots: seq<TimeSlot>, events: seq<CalendarEvent>, d: Option<string>)
    requires Injective(events, Id)
    ensures Injective(SortedDay(slots, Filter(events, DayIs(d))), Id)
  {
    var group := Filter(events, DayIs(d));
    FilterInjective(events, DayIs(d), Id);
    SortByPermutes(group, SortKey(slots));
    InjectivePermutation(SortedDay(slots, group), group, Id);
  }

  /** With distinct ids, the entry of every event holds the row it was packed into within
      its day (stably sorted by start slot) and the number of rows of that day. */
  lemma EventPosition(slots: seq<TimeSlot>, events: seq<CalendarEvent>, e: CalendarEvent)
    requires Injective(events, Id) && e in events
    ensures var sorted := SortedDay(slots, Filter(events, DayIs(e.day)));
            var p := Pack(slots, sorted);
            e.id in RowPositions(slots, events)
            && exists j :: 0 <= j < |sorted| && sorted[j] == e
                           && RowPositions(slots, events)[e.id] == Position(p.assign[j], |p.rows|)
  {
    var groups := DayGroups(events);
    var k := GroupOfEvent(events, e);
    var j := EventInDay(slots, events, e);
    EntryAfterDays(slots, groups, k, j);
  }

  /** An event's place in its sorted day, whose ids are distinct. */
  lemma EventInDay(slots: seq<TimeSlot>, events: seq<CalendarEvent>, e: CalendarEvent) returns (j: nat)
    requires Injective(events, Id) && e in events
    ensures var sorted := SortedDay(slots, Filter(events, DayIs(e.day)));
            j < |sorted| && sorted[j] == e && Injective(sorted, Id)
  {
    var group := Filter(events, DayIs(e.day));
    var sorted := SortedDay(slots, group);
    SortedDayInjective(slots, events, e.day);
    FilterMembers(events, DayIs(e.day));
    SortByPermutes(group, SortKey(slots));
    assert e in multiset(group);
    assert e in sorted;
    j :| 0 <= j < |sorted| && sorted[j] == e;
  }

  /** The entry of event `j` of day group `k` survives the later groups when none of them
      holds its id. */
  lemma EntryAfterDays(slots: seq<TimeSlot>, groups: seq<seq<CalendarEvent>>, k: nat, j: nat)
    requires k < |groups| && Injective(SortedDay(slots, groups[k]), Id) && j < |SortedDay(slots, groups[k])|
    requires forall g :: k < g < |groups| ==> SortedDay(slots, groups[k])[j].id !in IdsOf(groups[g])
    ensures var sorted := SortedDay(slots, groups[k]);
            var p := Pack(slots, sorted);
            sorted[j].id in PositionsFrom(slots, map[], groups)
            && PositionsFrom(slots, map[], groups)[sorted[j].id] == Position(p.assign[j], |p.rows|)
  {
    var m := PositionsFrom(slots, map[], groups[..k]);
    DayEntryUnique(slots, m, groups[k], j);
    PositionsFromSnoc(slots, groups, k);
    PositionsFromKeeps(slots, groups, k, SortedDay(slots, groups[k])[j].id);
  }

  /** `getRowEventPositions` keeps events apart: with distinct ids, two events of the same
      day placed in the same row do not overlap, one ending before the other starts. */
  lemma RowPositionsDisjoint(slots: seq<TimeSlot>, events: seq<CalendarEvent>, x: CalendarEvent, y: CalendarEvent)
    requires Injective(events, Id) && x in events && y in events && x != y && x.day == y.day
    requires x.id in RowPositions(slots, events) && y.id in RowPositions(slots, events)
    requires RowPositions(slots, events)[x.id].row == RowPositions(slots, events)[y.id].row
    ensures EndIndex(slots, x) < StartIndex(slots, y) || EndIndex(slots, y) < StartIndex(slots, x)
  {
    var sorted := SortedDay(slots, Filter(events, DayIs(x.day)));
    var i := EventSlot(slots, events, x);
    var j := EventSlot(slots, events, y);
    SameRowApart(slots, sorted, i, j);
  }

  /** Two different positions of a day that share a row hold events that do not overlap. */
  lemma SameRowApart(slots: seq<TimeSlot>, sorted: seq<CalendarEvent>, i: nat, j: nat)
    requires i < |sorted| && j < |sorted| && sorted[i] != sorted[j]
    requires Pack(slots, sorted).assign[i] == Pack(slots, sorted).assign[j]
    ensures EndIndex(slots, sorted[i]) < StartIndex(slots, sorted[j])
            || EndIndex(slots, sorted[j]) < StartIndex(slots, sorted[i])
  {
    if i < j {
      SameRowDisjoint(slots, sorted, i, j);
    } else {
      SameRowDisjoint(slots, sorted, j, i);
    }
  }

  /** The position of an event within its sorted day, and the row it holds there. */
  lemma EventSlot(slots: seq<TimeSlot>, events: seq<CalendarEvent>, e: CalendarEvent) returns (j: nat)
    requires Injective(events, Id) && e in events
    ensures var sorted := SortedDay(slots, Filter(events, DayIs(e.day)));
            j < |sorted| && sorted[j] == e && e.id in RowPositions(slots, events)
            && RowPositions(slots, events)[e.id].row == Pack(slots, sorted).assign[j]
  {
    var sorted := SortedDay(slots, Filter(events, DayIs(e.day)));
    var p := Pack(slots, sorted);
    EventPosition(slots, events, e);
    j :| 0 <= j < |sorted| && sorted[j] == e && RowPositions(slots, events)[e.id] == Position(p.assign[j], |p.rows|);
  }

  /** The events of the view on weekday `day`. */
  function DayEvents(events: seq<CalendarEvent>, day: string): seq<CalendarEvent> {
    Filter(events, DayIs(Some(day)))
  }

  /** The events that have an entry in `m`. */
  function HasEntry(m: Positions): CalendarEvent -> bool {
    (e: CalendarEvent) => e.id in m
  }

  /** The height of a day band in rows, as `getDayRowPositions` computes it: 1 unless some
      event of the day has an entry; then the row count of the day's first event, or 1 when
      that event has no entry or the count is 0. */
  function BandRows(m: Positions, dayEvents: seq<CalendarEvent>): int {
    if dayEvents == [] || Filter(dayEvents, HasEntry(m)) == [] then 1
    else if dayEvents[0].id in m && m[dayEvents[0].id].maxRows != 0 then m[dayEvents[0].id].maxRows
    else 1
  }

  /** The rows of the bands above day `i`. */
  function RowsAbove(m: Positions, events: seq<CalendarEvent>, i: nat): int
    requires i <= |DAYS|
  {
    if i == 0 then 0 else RowsAbove(m, events, i - 1) + BandRows(m, DayEvents(events, DAYS[i - 1]))
  }

  /** The top of day band `i`: below the header and the bands above it. */
  function DayTop(config: TimetableConfig, m: Positions, events: seq<CalendarEvent>, i: nat): int
    requires i <= |DAYS|
  {
    config.headerHeight + config.cellHeight * RowsAbove(m, events, i)
  }

  lemma MulAdd(c: int, r: int, b: int)
    ensures c * (r + b) == c * r + c * b
  {
  }

  /** The band height of one day in `getDayRowPositions`. */
  method DayMaxRows(filteredEvents: seq<CalendarEvent>, eventPositions: Positions, day: string)
    returns (maxRows: int)
    ensures maxRows == BandRows(eventPositions, DayEvents(filteredEvents, day))
  {
    var dayEvents := Filter(filteredEvents, DayIs(Some(day)));
    maxRows := 1;
    if |dayEvents| > 0 {
      var dayPositions := Filter(dayEvents, HasEntry(eventPositions));
      if |dayPositions| > 0 {
        var first := dayEvents[0].id;
        maxRows := if first in eventPositions && eventPositions[first].maxRows != 0
                   then eventPositions[first].maxRows else 1;
      }
    }
  }

  lemma DayTopStep(config: TimetableConfig, m: Positions, events: seq<CalendarEvent>, i: nat)
    requires i < |DAYS|
    ensures DayTop(config, m, events, i + 1)
            == DayTop(config, m, events, i) + config.cellHeight * BandRows(m, DayEvents(events, DAYS[i]))
  {
    var r, b := RowsAbove(m, events, i), BandRows(m, DayEvents(events, DAYS[i]));
    assert RowsAbove(m, events, i + 1) == r + b;
    MulAdd(config.cellHeight, r, b);
  }

  /** `getDayRowPositions`: the top of each day band, accumulated day after day. */
  method GetDayRowPositions(config: TimetableConfig, filteredEvents: seq<CalendarEvent>, eventPositions: Positions)
    returns (positions: array<int>)
    ensures fresh(positions) && positions.Length == |DAYS|
    ensures forall i :: 0 <= i < |DAYS| ==> positions[i] == DayTop(config, eventPositions, filteredEvents, i)
  {
    positions := new int[|DAYS|](_ => 0);
    var currentTop := config.headerHeight;
    for index := 0 to |DAYS|
      invariant currentTop == DayTop(config, eventPositions, filteredEvents, index)
      invariant forall i :: 0 <= i < index ==> positions[i] == DayTop(config, eventPositions, filteredEvents, i)
    {
      positions[index] := currentTop;
      var maxRows := DayMaxRows(filteredEvents, eventPositions, DAYS[index]);
      DayTopStep(config, eventPositions, filteredEvents, index);
      currentTop := currentTop + config.cellHeight * maxRows;
    }
  }

  /** When every entry lies within its rows, each band is at least one row high. */
  lemma BandRowsPositive(m: Positions, dayEvents: seq<CalendarEvent>)
    requires WithinRows(m)
    ensures BandRows(m, dayEvents) >= 1
  {
  }

  /** The bands stack downwards: each starts at least one cell height below the previous. */
  lemma DayTopsIncrease(config: TimetableConfig, m: Positions, events: seq<CalendarEvent>, i: nat)
    requires WithinRows(m) && config.cellHeight >= 0 && i < |DAYS|
    ensures DayTop(config, m, events, i + 1) >= DayTop(config, m, events, i) + config.cellHeight
  {
    var b := BandRows(m, DayEvents(events, DAYS[i]));
    BandRowsPositive(m, DayEvents(events, DAYS[i]));
    DayTopStep(config, m, events, i);
    assert config.cellHeight * b >= config.cellHeight * 1;
  }

  /** With distinct ids, a day band computed from `getRowEventPositions` is as many rows
      high as the day's packing has rows. */
  lemma BandRowsOfPacking(slots: seq<TimeSlot>, events: seq<CalendarEvent>, day: string)
    requires Injective(events, Id) && DayEvents(events, day) != []
    ensures BandRows(RowPositions(slots, events), DayEvents(events, day))
            == |Pack(slots, SortedDay(slots, DayEvents(events, day))).rows|
  {
    var m := RowPositions(slots, events);
    var dayEvents := DayEvents(events, day);
    var e := dayEvents[0];
    FilterMembers(events, DayIs(Some(day)));
    assert e in events && e.day == Some(day);
    EventPosition(slots, events, e);
    RowPositionsEntries(slots, events);
    BandRowsOfFirst(m, dayEvents);
  }

  /** A band whose first event has an entry with a row count is that many rows high. */
  lemma BandRowsOfFirst(m: Positions, dayEvents: seq<CalendarEvent>)
    requires dayEvents != [] && dayEvents[0].id in m && m[dayEvents[0].id].maxRows != 0
    ensures BandRows(m, dayEvents) == m[dayEvents[0].id].maxRows
  {
    FilterMembers(dayEvents, HasEntry(m));
    assert dayEvents[0] in Filter(dayEvents, HasEntry(m));
  }
}
