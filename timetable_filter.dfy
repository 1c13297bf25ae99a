/** src/components/timetables/TimeTableFilter.ts: which placed events and which event
    templates the editor shows, by week pattern, view type, study year and group. */
module TimetableFilter {
  import opened Wrappers
  import opened CalendarTypes
  import opened Seqs

  /** The fields of a subject the filter reads. */
  datatype Subject = Subject(id: int, code: Option<string>, nominal_semester: Option<int>)

  /** A subject's membership in a named study group. */
  datatype SubjectGroup = SubjectGroup(subject: Option<int>, name: string)

  /** The week selector's value. */
  datatype WeekFilter = WeekFilter(exactWeekMatch: bool, filterWeeksBitmask: int)

  /** The filter's own refs, its options and the subject and group stores it reads. */
  datatype FilterState = FilterState(
    selectedSemester: string,
    selectedYear: string,
    selectedSubjectGroup: Option<string>,
    viewType: string,
    preferredRoom: Option<int>,
    weekFilter: Option<WeekFilter>,
    subjects: seq<Subject>,
    subjectGroups: seq<SubjectGroup>)

  const TWO_31 := 0x8000_0000
  const TWO_32 := 0x1_0000_0000

  // ---------------------------------------------------------------- bitwise and

  /** Bit `w` of `x`. */
  function Bit(x: nat, w: nat): bool
    decreases w
  {
    if w == 0 then x % 2 == 1 else Bit(x / 2, w - 1)
  }

  /** The `n` low bits of `a` and `b`, combined bit by bit with and. */
  function AndBits(a: nat, b: nat, n: nat): nat
    decreases n
  {
    if n == 0 then 0
    else (if a % 2 == 1 && b % 2 == 1 then 1 else 0) + 2 * AndBits(a / 2, b / 2, n - 1)
  }

  /** A bitwise and is no larger than either operand. */
  lemma {:induction false} AndBitsAtMost(a: nat, b: nat, n: nat)
    ensures AndBits(a, b, n) <= a && AndBits(a, b, n) <= b
    decreases n
  {
    if n > 0 {
      AndBitsAtMost(a / 2, b / 2, n - 1);
    }
  }

  /** Some bit below `n` is set in both `a` and `b`. */
  predicate SharesBit(a: nat, b: nat, n: nat) {
    exists w: nat :: w < n && Bit(a, w) && Bit(b, w)
  }

  /** A bitwise and is non-zero exactly when the operands share a set bit. */
  lemma {:induction false} AndBitsPositive(a: nat, b: nat, n: nat)
    ensures AndBits(a, b, n) > 0 <==> SharesBit(a, b, n)
    decreases n
  {
    if n > 0 {
      AndBitsPositive(a / 2, b / 2, n - 1);
      if AndBits(a, b, n) > 0 {
        if a % 2 == 1 && b % 2 == 1 {
          assert Bit(a, 0) && Bit(b, 0);
        } else {
          var w: nat :| w < n - 1 && Bit(a / 2, w) && Bit(b / 2, w);
          assert Bit(a, w + 1) && Bit(b, w + 1);
        }
      }
      if SharesBit(a, b, n) {
        var w: nat :| w < n && Bit(a, w) && Bit(b, w);
        if w > 0 {
          assert Bit(a / 2, w - 1) && Bit(b / 2, w - 1);
          assert SharesBit(a / 2, b / 2, n - 1);
        }
      }
    }
  }

  /** JavaScript's `a & b` on numbers: both operands are reduced to 32 bits, combined,
      and the result is read back as a signed 32-bit integer. */
  function Int32And(a: int, b: int): (r: int)
    ensures -TWO_31 <= r < TWO_31
  {
    AndBitsAtMost(a % TWO_32, b % TWO_32, 32);
    var u := AndBits(a % TWO_32, b % TWO_32, 32);
    if u >= TWO_31 then u - TWO_32 else u
  }

  // ---------------------------------------------------------------- week pattern

  /** `applyWeekPatternMatch`: identical bitmasks in exact mode, otherwise a positive
      bitwise and with the filter's bitmask (a missing filter counts as 0). */
  predicate WeekPatternMatch(weekFilter: Option<WeekFilter>, event: CalendarEvent) {
    var eventWeeksBitmask := event.weeks_bitmask;
    if weekFilter.Some? && weekFilter.value.exactWeekMatch then
      eventWeeksBitmask == weekFilter.value.filterWeeksBitmask
    else
      Int32And(eventWeeksBitmask, if weekFilter.Some? then weekFilter.value.filterWeeksBitmask else 0) > 0
  }

  /** For week bitmasks below bit 31, a partial match means the event and the filter
      share a week. */
  lemma PartialMatchSharesWeek(weekFilter: Option<WeekFilter>, event: CalendarEvent)
    requires weekFilter.Some? && !weekFilter.value.exactWeekMatch
    requires 0 <= event.weeks_bitmask < TWO_31 && 0 <= weekFilter.value.filterWeeksBitmask < TWO_31
    ensures WeekPatternMatch(weekFilter, event) <==>
              SharesBit(event.weeks_bitmask, weekFilter.value.filterWeeksBitmask, 32)
  {
    var a := event.weeks_bitmask;
    var b := weekFilter.value.filterWeeksBitmask;
    assert a % TWO_32 == a && b % TWO_32 == b;
    AndBitsAtMost(a, b, 32);
    AndBitsPositive(a, b, 32);
  }

  /** Outside exact mode an event without weeks, or a missing filter, keeps nothing. */
  lemma PartialMatchNeedsWeeks(weekFilter: Option<WeekFilter>, event: CalendarEvent)
    requires weekFilter.None? || !weekFilter.value.exactWeekMatch
    requires event.weeks_bitmask == 0 || weekFilter.None?
    ensures !WeekPatternMatch(weekFilter, event)
  {
    var b := if weekFilter.Some? then weekFilter.value.filterWeeksBitmask else 0;
    AndBitsAtMost(event.weeks_bitmask % TWO_32, b % TWO_32, 32);
  }

  /** In exact mode an event is kept exactly when its bitmask is the filter's. */
  lemma ExactMatchIsEquality(weekFilter: Option<WeekFilter>, event: CalendarEvent)
    requires weekFilter.Some? && weekFilter.value.exactWeekMatch
    ensures WeekPatternMatch(weekFilter, event) <==> event.weeks_bitmask == weekFilter.value.filterWeeksBitmask
  {
  }

  // ---------------------------------------------------------------- year and level

  /** `nominalSemester`: the semester number of the selected study year in the selected
      term (`LS` is the summer term). */
  function NominalSemester(selectedSemester: string, selectedYear: string): Option<int> {
    var isSummer := selectedSemester == "LS";
    if selectedYear == "1bc" then Some(if isSummer then 2 else 1)
    else if selectedYear == "2bc" then Some(if isSummer then 4 else 3)
    else if selectedYear == "3bc" then Some(if isSummer then 6 else 5)
    else if selectedYear == "1i" then Some(if isSummer then 2 else 1)
    else if selectedYear == "2i" then Some(if isSummer then 4 else 3)
    else None
  }

  /** The year codes the table knows. */
  predicate KnownYear(year: string) {
    year in ["1bc", "2bc", "3bc", "1i", "2i"]
  }

  /** The table is defined exactly on the known years; year `n` has semesters `2n - 1`
      (winter) and `2n` (summer). */
  lemma NominalSemesterSpec(selectedSemester: string, selectedYear: string)
    ensures NominalSemester(selectedSemester, selectedYear).Some? <==> KnownYear(selectedYear)
    ensures KnownYear(selectedYear) ==>
              var n := selectedYear[0] as int - '0' as int;
              NominalSemester(selectedSemester, selectedYear).value
                == 2 * n - (if selectedSemester == "LS" then 0 else 1)
  {
  }

  /** `s.startsWith(prefix)`. */
  predicate StartsWith(s: string, prefix: string) {
    |prefix| <= |s| && s[..|prefix|] == prefix
  }

  /** `s.includes(part)`. */
  predicate Includes(s: string, part: string)
    decreases |s|
  {
    StartsWith(s, part) || (|s| > 0 && Includes(s[1..], part))
  }

  /** `isBachelorSubject`. */
  predicate IsBachelorSubject(code: Option<string>) {
    if !Present(code) then true
    else StartsWith(code.value, "B-") || !StartsWith(code.value, "I-")
  }

  /** `isMasterSubject`. */
  predicate IsMasterSubject(code: Option<string>) {
    if !Present(code) then true
    else StartsWith(code.value, "I-") || !StartsWith(code.value, "B-")
  }

  /** The code carries the given prefix. */
  predicate CodeStartsWith(code: Option<string>, prefix: string) {
    code.Some? && StartsWith(code.value, prefix)
  }

  /** Since no code starts with both prefixes, a subject is a bachelor subject unless its
      code starts with `I-`, a master subject unless it starts with `B-`, and always at
      least one of the two. */
  lemma LevelRules(code: Option<string>)
    ensures IsBachelorSubject(code) <==> !CodeStartsWith(code, "I-")
    ensures IsMasterSubject(code) <==> !CodeStartsWith(code, "B-")
    ensures IsBachelorSubject(code) || IsMasterSubject(code)
  {
    if CodeStartsWith(code, "I-") {
      assert code.value[0] == "I-"[0];
      assert !StartsWith(code.value, "B-");
    }
  }

  // ---------------------------------------------------------------- parallels view

  /** `subjects.find(s => s.id === id)`. */
  function FindSubject(subjects: seq<Subject>, id: int): (r: Option<Subject>)
    ensures r.None? <==> forall s :: s in subjects ==> s.id != id
    ensures r.Some? ==> exists k :: 0 <= k < |subjects| && subjects[k] == r.value && r.value.id == id
                          && forall j :: 0 <= j < k ==> subjects[j].id != id
  {
    var k := FindIndex(subjects, (s: Subject) => s.id == id);
    if k < 0 then None else Some(subjects[k])
  }

  /** `isSubjectInGroup`: vacuously true without a subject or a group name, otherwise
      some group of that name lists the subject. */
  function IsSubjectInGroup(subjectGroups: seq<SubjectGroup>, subjectId: Option<int>, groupName: Option<string>): (r: bool)
    ensures r <==> !NonZero(subjectId) || !Present(groupName)
                   || exists g :: g in subjectGroups && g.subject == subjectId && g.name == groupName.value
  {
    if !NonZero(subjectId) || !Present(groupName) then true
    else
      var matchingGroups := Filter(subjectGroups, (g: SubjectGroup) => g.subject == subjectId);
      FilterMembers(subjectGroups, (g: SubjectGroup) => g.subject == subjectId);
      exists g :: g in matchingGroups && g.name == groupName.value
  }

  /** `applyParallelsFilter`. */
  predicate ApplyParallelsFilter(st: FilterState, item: CalendarEvent) {
    if !NonZero(item.subject_id) then false
    else
      var subject := FindSubject(st.subjects, item.subject_id.value);
      if subject.None? then false
      else
        var subjectCode := if Present(subject.value.code) then subject.value.code else None;
        var isBachelor := Includes(st.selectedYear, "bc");
        var isCorrectLevel := if isBachelor then IsBachelorSubject(subjectCode) else IsMasterSubject(subjectCode);
        var isCorrectSemester := subject.value.nominal_semester == NominalSemester(st.selectedSemester, st.selectedYear);
        var isInSelectedGroup := !Present(st.selectedSubjectGroup)
                                 || IsSubjectInGroup(st.subjectGroups, item.subject_id, st.selectedSubjectGroup);
        isCorrectLevel && isCorrectSemester && isInSelectedGroup
  }

  /** The parallels view keeps an event exactly when it names a known subject whose code
      does not carry the other level's prefix, whose nominal semester is the selected
      one, and which is in the selected group when one is selected. */
  lemma ParallelsFilterSpec(st: FilterState, item: CalendarEvent)
    ensures ApplyParallelsFilter(st, item) <==>
              NonZero(item.subject_id)
              && FindSubject(st.subjects, item.subject_id.value).Some?
              && var subject := FindSubject(st.subjects, item.subject_id.value).value;
                 !CodeStartsWith(subject.code, if Includes(st.selectedYear, "bc") then "I-" else "B-")
                 && subject.nominal_semester == NominalSemester(st.selectedSemester, st.selectedYear)
                 && (!Present(st.selectedSubjectGroup)
                     || exists g :: g in st.subjectGroups && g.subject == item.subject_id
                                    && g.name == st.selectedSubjectGroup.value)
  {
    if NonZero(item.subject_id) && FindSubject(st.subjects, item.subject_id.value).Some? {
      var subject := FindSubject(st.subjects, item.subject_id.value).value;
      var subjectCode := if Present(subject.code) then subject.code else None;
      LevelRules(subjectCode);
    }
  }

  // ---------------------------------------------------------------- views

  function WeekMatches(st: FilterState): CalendarEvent -> bool {
    (e: CalendarEvent) => WeekPatternMatch(st.weekFilter, e)
  }

  function InParallels(st: FilterState): CalendarEvent -> bool {
    (e: CalendarEvent) => ApplyParallelsFilter(st, e)
  }

  function InPreferredRoom(st: FilterState): CalendarEvent -> bool {
    (e: CalendarEvent) => e.room_id == st.preferredRoom
  }

  /** `filteredEvents`: the week filter, then the view's own filter. */
  function FilteredEvents(st: FilterState, placedEvents: seq<CalendarEvent>): seq<CalendarEvent> {
    var events := Filter(placedEvents, WeekMatches(st));
    if st.viewType == "parallels" then Filter(events, InParallels(st))
    else if st.viewType == "rooms" then
      if !NonZero(st.preferredRoom) then [] else Filter(events, InPreferredRoom(st))
    else events
  }

  /** `filteredEventTemplates`: the parallels filter in the parallels view, all templates
      otherwise. */
  function FilteredEventTemplates(st: FilterState, unplacedEvents: seq<CalendarEvent>): seq<CalendarEvent> {
    if st.viewType == "parallels" then Filter(unplacedEvents, InParallels(st)) else unplacedEvents
  }

  /** The shown events keep their order, and an event is shown exactly when it matches the
      week filter and the view: the parallels filter, the preferred room (none without
      one), or nothing more in any other view. */
  lemma FilteredEventsSpec(st: FilterState, placedEvents: seq<CalendarEvent>, e: CalendarEvent)
    ensures IsSubsequence(FilteredEvents(st, placedEvents), placedEvents)
    ensures e in FilteredEvents(st, placedEvents) <==>
              e in placedEvents && WeekPatternMatch(st.weekFilter, e)
              && (st.viewType == "parallels" ==> ApplyParallelsFilter(st, e))
              && (st.viewType == "rooms" ==> NonZero(st.preferredRoom) && e.room_id == st.preferredRoom)
  {
    var events := Filter(placedEvents, WeekMatches(st));
    FilterMembers(placedEvents, WeekMatches(st));
    FilterIsSubsequence(placedEvents, WeekMatches(st));
    if st.viewType == "parallels" {
      FilterMembers(events, InParallels(st));
      FilterIsSubsequence(events, InParallels(st));
      SubsequenceTrans(Filter(events, InParallels(st)), events, placedEvents);
    } else if st.viewType == "rooms" {
      if NonZero(st.preferredRoom) {
        FilterMembers(events, InPreferredRoom(st));
        FilterIsSubsequence(events, InPreferredRoom(st));
        SubsequenceTrans(Filter(events, InPreferredRoom(st)), events, placedEvents);
      }
    }
  }

  /** The templates ignore the week filter: in the parallels view they are the ones the
      parallels filter keeps, in order, and in every other view all of them. */
  lemma FilteredEventTemplatesSpec(st: FilterState, unplacedEvents: seq<CalendarEvent>, e: CalendarEvent)
    ensures st.viewType != "parallels" ==> FilteredEventTemplates(st, unplacedEvents) == unplacedEvents
    ensures IsSubsequence(FilteredEventTemplates(st, unplacedEvents), unplacedEvents)
    ensures e in FilteredEventTemplates(st, unplacedEvents) <==>
              e in unplacedEvents && (st.viewType == "parallels" ==> ApplyParallelsFilter(st, e))
  {
    if st.viewType == "parallels" {
      FilterMembers(unplacedEvents, InParallels(st));
      FilterIsSubsequence(unplacedEvents, InParallels(st));
    } else {
      SubsequenceRefl(unplacedEvents);
    }
  }
}
