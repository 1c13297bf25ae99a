/** src/utils/timetable.ts: slot configuration, the slot table generator,
    the weekday list and the base grid geometry. */
module Timetable {
  import opened CalendarTypes
  import opened ClockFormat
  import opened Wrappers
  import opened Seqs

  datatype TimeConfig = TimeConfig(
    slotCount: int,
    slotDuration: int,
    breakDuration: int,
    startHour: int,
    startMinute: int)

  datatype TimetableConfig = TimetableConfig(
    cellWidth: int,
    cellHeight: int,
    headerHeight: int,
    dayColumnWidth: int)

  const DEFAULT_TIME_CONFIG := TimeConfig(12, 50, 10, 8, 0)
  const DEFAULT_TIMETABLE_CONFIG := TimetableConfig(120, 60, 40, 100)
  const COMPACT_TIMETABLE_CONFIG := TimetableConfig(80, 50, 40, 100)

  const DAYS: seq<string> := ["Monday", "Tuesday", "Wednesday", "Thursday", "Friday"]

  /** Minutes from one slot start to the next. */
  function Step(config: TimeConfig): int {
    config.slotDuration + config.breakDuration
  }

  /** Minutes since midnight at which slot `i` starts: one step after slot `i - 1`. */
  function SlotStart(config: TimeConfig, i: nat): int {
    if i == 0 then config.startHour * 60 + config.startMinute
    else SlotStart(config, i - 1) + Step(config)
  }

  /** Slot `i` starts `START_HOUR * 60 + START_MINUTE + i * (SLOT_DURATION + BREAK_DURATION)`
      minutes after midnight. */
  lemma {:induction false} SlotStartClosedForm(config: TimeConfig, i: nat)
    ensures SlotStart(config, i) == config.startHour * 60 + config.startMinute + i * Step(config)
  {
    if i > 0 {
      SlotStartClosedForm(config, i - 1);
      assert (i - 1) * Step(config) + Step(config) == i * Step(config);
    }
  }

  /** The configurations under which the generator's hour/minute carry is exact:
      the start minute is a valid minute and no duration runs the clock backwards. */
  predicate Regular(config: TimeConfig) {
    0 <= config.startMinute < 60 && config.slotDuration >= 0 && Step(config) >= 0
  }

  /** Minutes since midnight at which slot `i` ends: one slot length after its start. */
  function SlotEnd(config: TimeConfig, i: nat): int {
    SlotStart(config, i) + config.slotDuration
  }

  /** Closed form of slot `i`: it starts `i` steps after the start time and lasts one slot. */
  function SlotSpec(config: TimeConfig, i: nat): TimeSlot {
    TimeSlot(MinutesText(SlotStart(config, i)), MinutesText(SlotEnd(config, i)), i)
  }

  function SlotCount(config: TimeConfig): nat {
    if config.slotCount > 0 then config.slotCount else 0
  }

  /** The slot table of a regular configuration, in closed form. */
  function SlotTable(config: TimeConfig): (r: seq<TimeSlot>)
    ensures |r| == SlotCount(config)
  {
    seq(SlotCount(config), i requires 0 <= i => SlotSpec(config, i))
  }

  lemma SlotTableAt(config: TimeConfig, i: nat)
    requires i < SlotCount(config)
    ensures SlotTable(config)[i] == SlotSpec(config, i)
  {
  }

  lemma DivModOfClock(hour: int, minute: int)
    requires 0 <= minute < 60
    ensures (hour * 60 + minute) / 60 == hour && (hour * 60 + minute) % 60 == minute
  {
  }

  /** The generator's carry keeps the minute count and brings the minute field into [0, 59]. */
  lemma Carry(hour: int, minute: int)
    requires minute >= 60
    ensures (hour + minute / 60) * 60 + minute % 60 == hour * 60 + minute
    ensures 0 <= minute % 60 < 60
  {
  }

  /** A slot whose start and end are given as hour and minute fields in [0, 59] has the
      texts of the closed form. */
  lemma SlotTextsAgree(config: TimeConfig, i: nat, hour: int, minute: int, endHour: int, endMinute: int)
    requires hour * 60 + minute == SlotStart(config, i) && 0 <= minute < 60
    requires endHour * 60 + endMinute == SlotEnd(config, i) && 0 <= endMinute < 60
    ensures TimeSlot(ClockText(hour, minute), ClockText(endHour, endMinute), i) == SlotSpec(config, i)
  {
    MinutesTextOfClock(SlotStart(config, i), hour, minute);
    MinutesTextOfClock(SlotEnd(config, i), endHour, endMinute);
  }

  /** One turn of the generator's loop on a regular configuration: the slot it emits
      extends the table's prefix by one, and the next start is one step later. */
  lemma SlotStep(config: TimeConfig, i: nat, hour: int, minute: int, endHour: int, endMinute: int,
                 nextHour: int, nextMinute: int)
    requires Regular(config) && i < SlotCount(config)
    requires hour * 60 + minute == SlotStart(config, i) && 0 <= minute < 60
    requires endHour * 60 + endMinute == hour * 60 + minute + config.slotDuration && 0 <= endMinute < 60
    requires nextHour * 60 + nextMinute == hour * 60 + minute + Step(config)
    ensures SlotTable(config)[..i] + [TimeSlot(ClockText(hour, minute), ClockText(endHour, endMinute), i)]
            == SlotTable(config)[..i + 1]
    ensures nextHour * 60 + nextMinute == SlotStart(config, i + 1)
  {
    SlotTextsAgree(config, i, hour, minute, endHour, endMinute);
    SlotTablePrefix(config, i);
  }

  /** `generateTimeSlots`: a counted loop that carries minutes into hours. It yields
      `max(SLOT_COUNT, 0)` slots numbered 0, 1, ...; for a regular configuration the
      slots are exactly the closed form. */
  method GenerateTimeSlots(config: TimeConfig) returns (slots: seq<TimeSlot>)
    ensures |slots| == SlotCount(config)
    ensures forall i :: 0 <= i < |slots| ==> slots[i].index == i
    ensures Regular(config) ==> slots == SlotTable(config)
  {
    slots := [];
    var currentHour := config.startHour;
    var currentMinute := config.startMinute;
    var i := 0;
    while i < config.slotCount
      invariant 0 <= i <= SlotCount(config) && |slots| == i
      invariant forall k :: 0 <= k < i ==> slots[k].index == k
      invariant currentHour * 60 + currentMinute == SlotStart(config, i)
      invariant Regular(config) ==> 0 <= currentMinute < 60
      invariant Regular(config) ==> slots == SlotTable(config)[..i]
    {
      var from := ClockText(currentHour, currentMinute);
      var endHour := currentHour;
      var endMinute := currentMinute + config.slotDuration;
      if endMinute >= 60 {
        Carry(endHour, endMinute);
        endHour := endHour + endMinute / 60;
        endMinute := endMinute % 60;
      }
      var to := ClockText(endHour, endMinute);
      slots := slots + [TimeSlot(from, to, i)];
      ghost var hour, minute := currentHour, currentMinute;
      currentMinute := currentMinute + config.slotDuration + config.breakDuration;
      if currentMinute >= 60 {
        Carry(currentHour, currentMinute);
        currentHour := currentHour + currentMinute / 60;
        currentMinute := currentMinute % 60;
      }
      if Regular(config) {
        SlotStep(config, i, hour, minute, endHour, endMinute, currentHour, currentMinute);
      }
      i := i + 1;
    }
    if Regular(config) {
      assert SlotTable(config)[..i] == SlotTable(config);
    }
  }

  /** The table's first `i + 1` slots are its first `i` and the closed form of slot `i`. */
  lemma SlotTablePrefix(config: TimeConfig, i: nat)
    requires i < SlotCount(config)
    ensures SlotTable(config)[..i + 1] == SlotTable(config)[..i] + [SlotSpec(config, i)]
  {
    var t := SlotTable(config);
    PrefixSnoc(t, i);
    SlotTableAt(config, i);
  }

  /** With a positive step the slot start times strictly increase, and each `from`
      text reads back as its own start time (hence the `from` texts are distinct). */
  lemma SlotTableIncreasing(config: TimeConfig, i: nat, j: nat)
    requires Step(config) > 0
    requires 0 <= i < j < SlotCount(config)
    ensures SlotStart(config, i) < SlotStart(config, j)
    ensures ParseClock(SlotTable(config)[i].from) == Some(SlotStart(config, i))
    ensures SlotTable(config)[i].from != SlotTable(config)[j].from
  {
    StartsIncrease(config, i, j);
    SlotTableAt(config, i);
    SlotTableAt(config, j);
    MinutesTextRoundTrip(SlotStart(config, i));
    MinutesTextRoundTrip(SlotStart(config, j));
  }

  /** No two slots start at the same text, and no start text is empty. */
  predicate WellFormedStarts(slots: seq<TimeSlot>) {
    (forall i, j :: 0 <= i < j < |slots| ==> slots[i].from != slots[j].from)
    && (forall i :: 0 <= i < |slots| ==> slots[i].from != "")
  }

  /** With a positive step the slot table's start texts are distinct and non-empty. */
  lemma SlotTableWellFormed(config: TimeConfig)
    requires Step(config) > 0
    ensures WellFormedStarts(SlotTable(config))
  {
    var slots := SlotTable(config);
    forall i, j | 0 <= i < j < |slots|
      ensures slots[i].from != slots[j].from
    {
      SlotTableIncreasing(config, i, j);
    }
    forall i | 0 <= i < |slots|
      ensures slots[i].from != ""
    {
      SlotTableAt(config, i);
    }
  }

  lemma {:induction false} StartsIncrease(config: TimeConfig, i: nat, j: nat)
    requires Step(config) > 0 && i < j
    ensures SlotStart(config, i) < SlotStart(config, j)
    decreases j - i
  {
    if i < j - 1 {
      StartsIncrease(config, i, j - 1);
    }
  }

  /** An `H..H:MM` text whose (two-digit) minute field lies in [0, 59]. */
  predicate MinuteFieldValid(s: string) {
    |s| >= 5 && s[|s| - 3] == ':' && 0 <= ParseNat(s[|s| - 2..]) < 60
  }

  /** With the start minute in [0, 59] and a non-negative slot length, both the `from`
      and the `to` text of every slot have a minute field in [0, 59]. */
  lemma SlotMinutesInRange(config: TimeConfig, i: nat)
    requires Regular(config) && 0 <= i < SlotCount(config)
    ensures MinuteFieldValid(SlotTable(config)[i].from) && MinuteFieldValid(SlotTable(config)[i].to)
  {
    var t := SlotStart(config, i);
    SlotTableAt(config, i);
    ParsedMinuteField(t);
    ParsedMinuteField(SlotEnd(config, i));
  }

  lemma ParsedMinuteField(t: int)
    ensures MinuteFieldValid(MinutesText(t))
  {
    var m := PadStart2(IntToString(t % 60));
    var s := MinutesText(t);
    assert s[|s| - 2..] == m;
    ParseNatToString(t % 60);
    if t % 60 < 10 {
      assert m == "0" + NatToString(t % 60);
      assert m[..1] == "0";
      assert ParseNat(m) == ParseNat(m[..1]) * 10 + ParseNat(NatToString(t % 60));
    }
  }

  /** A configuration with the values of `DEFAULT_TIME_CONFIG`, field by field. */
  predicate HasDefaultValues(c: TimeConfig) {
    c.slotCount == 12 && c.slotDuration == 50 && c.breakDuration == 10 && c.startHour == 8 && c.startMinute == 0
  }

  /** The default configuration: twelve 50-minute slots with 10-minute breaks; the
      first runs from 08:00 to 08:50 (slot `i` of the table is `SlotSpec(c, i)` by `SlotTableAt`). */
  lemma DefaultSlots(c: TimeConfig)
    requires HasDefaultValues(c)
    ensures Regular(c) && SlotCount(c) == 12
    ensures SlotSpec(c, 0) == TimeSlot("08:00", "08:50", 0)
  {
    assert ClockText(8, 0) == "08:00" && ClockText(8, 50) == "08:50";
    DefaultSlot(c, 0);
  }

  /** The last default slot runs from 19:00 to 19:50. */
  lemma DefaultLastSlot(c: TimeConfig)
    requires HasDefaultValues(c)
    ensures SlotSpec(c, 11) == TimeSlot("19:00", "19:50", 11)
  {
    assert ClockText(19, 0) == "19:00" && ClockText(19, 50) == "19:50";
    DefaultSlot(c, 11);
  }

  /** Slot `i` of the default configuration runs from `8 + i`:00 to `8 + i`:50. */
  lemma DefaultSlot(c: TimeConfig, i: nat)
    requires HasDefaultValues(c) && i < 12
    ensures SlotSpec(c, i) == TimeSlot(ClockText(8 + i, 0), ClockText(8 + i, 50), i)
  {
    DefaultStart(c, i);
    SlotTextsAgree(c, i, 8 + i, 0, 8 + i, 50);
  }

  /** Default slot `i` starts at `08:00` plus one hour per slot. */
  lemma {:induction false} DefaultStart(c: TimeConfig, i: nat)
    requires HasDefaultValues(c)
    ensures SlotStart(c, i) == 480 + 60 * i
  {
    if i > 0 {
      DefaultStart(c, i - 1);
    }
  }

  lemma MinutesTextOfClock(t: int, hour: int, minute: int)
    requires t == hour * 60 + minute && 0 <= minute < 60
    ensures MinutesText(t) == ClockText(hour, minute)
  {
    DivModOfClock(hour, minute);
  }

  /** One absolutely placed box of the grid, in pixels. */
  datatype Box = Box(left: int, top: int, width: int, height: int)

  /** `getHeaderStyle(index)`: the header cell above slot column `index`. */
  function HeaderBox(config: TimetableConfig, index: int): Box {
    Box(config.dayColumnWidth + config.cellWidth * index, 0, config.cellWidth, config.headerHeight)
  }

  /** `getDayStyle(index)`: the label cell of day row `index`, one cell high. */
  function DayBox(config: TimetableConfig, index: int): Box {
    Box(0, config.headerHeight + config.cellHeight * index, config.dayColumnWidth, config.cellHeight)
  }

  /** `cornerCellStyle`. */
  function CornerBox(config: TimetableConfig): Box {
    Box(0, 0, config.dayColumnWidth, config.headerHeight)
  }

  /** `containerStyle`: wide enough for every slot column and high enough for every day row. */
  function ContainerBox(config: TimetableConfig, dayCount: nat, slotCount: nat): Box {
    Box(0, 0, config.dayColumnWidth + config.cellWidth * slotCount, config.headerHeight + config.cellHeight * dayCount)
  }

  /** The base grid tiles its container: the header cells sit side by side right of the
      corner cell and end at the container's right edge; the day rows stack below it and
      end at the container's bottom edge. */
  lemma {:induction false} GridTilesContainer(config: TimetableConfig, days: seq<string>, slots: seq<TimeSlot>)
    ensures HeaderBox(config, 0).left == CornerBox(config).left + CornerBox(config).width
    ensures DayBox(config, 0).top == CornerBox(config).top + CornerBox(config).height
    ensures forall i :: 0 <= i < |slots| ==>
      HeaderBox(config, i).left + HeaderBox(config, i).width == HeaderBox(config, i + 1).left
    ensures forall i :: 0 <= i < |days| ==>
      DayBox(config, i).top + DayBox(config, i).height == DayBox(config, i + 1).top
    ensures HeaderBox(config, |slots|).left == ContainerBox(config, |days|, |slots|).width
    ensures DayBox(config, |days|).top == ContainerBox(config, |days|, |slots|).height
  {
  }
}
