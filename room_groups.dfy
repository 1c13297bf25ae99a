/** src/store/roomGroups.ts: the derived views of the room-group list that the store
    exposes (groups by name, unique names, membership queries and filter options). */
module RoomGroups {
  import opened Wrappers
  import opened Seqs
  import opened ClockFormat

  /** A room's membership in a named group; several records share a name. */
  datatype RoomGroup = RoomGroup(id: int, name: string, room: int)

  /** The plain object `{ [name]: RoomGroup[] }`: its own keys in creation order and the
      array stored under each. */
  datatype NameIndex = NameIndex(keys: seq<string>, buckets: map<string, seq<RoomGroup>>)

  /** One entry of `groupOptions`; `label` is a keyword in Dafny, so the `label` field is
      `labelText` here. */
  datatype GroupOption = GroupOption(labelText: string, value: string, count: int)

  function Name(g: RoomGroup): string { g.name }

  function Room(g: RoomGroup): int { g.room }

  function NameIs(n: string): RoomGroup -> bool {
    (g: RoomGroup) => g.name == n
  }

  function RoomIs(r: int): RoomGroup -> bool {
    (g: RoomGroup) => g.room == r
  }

  /** One step of the `forEach` in `groupsByName`: create the key with an empty array when
      the object has none, then push the group. */
  function AddGroup(index: NameIndex, g: RoomGroup): NameIndex {
    var created := if g.name in index.buckets then index
                   else NameIndex(index.keys + [g.name], index.buckets[g.name := []]);
    created.(buckets := created.buckets[g.name := created.buckets[g.name] + [g]])
  }

  /** The object `groupsByName` builds from a list of groups. */
  function Buckets(groups: seq<RoomGroup>): NameIndex
    decreases |groups|
  {
    if groups == [] then NameIndex([], map[])
    else AddGroup(Buckets(groups[..|groups| - 1]), groups[|groups| - 1])
  }

  /** `groupsByName`: the `forEach` over the room groups, filling the object in place. */
  method GroupsByName(roomGroups: seq<RoomGroup>) returns (groups: NameIndex)
    ensures groups == Buckets(roomGroups)
  {
    groups := NameIndex([], map[]);
    for i := 0 to |roomGroups|
      invariant groups == Buckets(roomGroups[..i])
    {
      var group := roomGroups[i];
      assert roomGroups[..i + 1][..i] == roomGroups[..i];
      if group.name !in groups.buckets {
        groups := NameIndex(groups.keys + [group.name], groups.buckets[group.name := []]);
      }
      groups := groups.(buckets := groups.buckets[group.name := groups.buckets[group.name] + [group]]);
    }
    assert roomGroups[..|roomGroups|] == roomGroups;
  }

  /** `uniqueGroupNames`: the names, each once, in the order they first occur. */
  function UniqueGroupNames(groups: seq<RoomGroup>): (r: seq<string>)
    ensures forall n :: n in r <==> n in Map(groups, Name)
    ensures Distinct(r)
    ensures forall i, j :: 0 <= i < j < |r| ==> IndexOf(Map(groups, Name), r[i]) < IndexOf(Map(groups, Name), r[j])
  {
    DedupSpec(Map(groups, Name));
    Dedup(Map(groups, Name))
  }

  /** A name occurs in the list exactly when some group carries it. */
  lemma NamedGroup(groups: seq<RoomGroup>, n: string)
    ensures n in Map(groups, Name) <==> exists g :: g in groups && g.name == n
  {
    if n in Map(groups, Name) {
      var k :| 0 <= k < |groups| && Map(groups, Name)[k] == n;
      assert groups[k] in groups;
    }
    forall g | g in groups && g.name == n
      ensures n in Map(groups, Name)
    {
      var k :| 0 <= k < |groups| && groups[k] == g;
      assert Map(groups, Name)[k] == n;
    }
  }

  /** The object's keys are the unique names, in first-occurrence order, and the array
      under each name holds exactly the groups of that name, in list order. */
  lemma {:induction false} GroupsByNamePartition(groups: seq<RoomGroup>)
    ensures Buckets(groups).keys == UniqueGroupNames(groups)
    ensures forall n :: n in Buckets(groups).buckets <==> n in Map(groups, Name)
    ensures forall n :: n in Buckets(groups).buckets ==> Buckets(groups).buckets[n] == Filter(groups, NameIs(n))
    decreases |groups|
  {
    if groups != [] {
      var init, g := groups[..|groups| - 1], groups[|groups| - 1];
      GroupsByNamePartition(init);
      var names := Map(groups, Name);
      assert names[..|names| - 1] == Map(init, Name);
      DedupSpec(Map(init, Name));
      forall n | n in Buckets(groups).buckets
        ensures Buckets(groups).buckets[n] == Filter(groups, NameIs(n))
      {
        if n == g.name && n !in Buckets(init).buckets {
          assert Filter(init, NameIs(n)) == [] by {
            NamedGroup(init, n);
            FilterNoneKept(init, NameIs(n));
          }
        }
      }
    }
  }

  /** `isRoomInGroup`: some group of that name holds the room. */
  predicate IsRoomInGroup(groups: seq<RoomGroup>, roomId: int, groupName: string) {
    exists g :: g in groups && g.name == groupName && g.room == roomId
  }

  /** `getRoomGroups`: the groups holding the room, in list order. */
  function GetRoomGroups(groups: seq<RoomGroup>, roomId: int): (r: seq<RoomGroup>)
    ensures forall g :: g in r <==> g in groups && g.room == roomId
    ensures IsSubsequence(r, groups)
    ensures |r| == Count(groups, RoomIs(roomId))
  {
    FilterMembers(groups, RoomIs(roomId));
    FilterIsSubsequence(groups, RoomIs(roomId));
    FilterCount(groups, RoomIs(roomId));
    Filter(groups, RoomIs(roomId))
  }

  /** `getRoomsByGroupName`: the rooms of the groups with that name, in list order. */
  function GetRoomsByGroupName(groups: seq<RoomGroup>, groupName: string): (r: seq<int>)
    ensures |r| == Count(groups, NameIs(groupName))
  {
    FilterCount(groups, NameIs(groupName));
    Map(Filter(groups, NameIs(groupName)), Room)
  }

  /** The rooms listed for a name are exactly the rooms `isRoomInGroup` accepts for it. */
  lemma RoomsByGroupNameMembers(groups: seq<RoomGroup>, groupName: string)
    ensures forall r :: r in GetRoomsByGroupName(groups, groupName) <==> IsRoomInGroup(groups, r, groupName)
  {
    var sel := Filter(groups, NameIs(groupName));
    FilterMembers(groups, NameIs(groupName));
    forall r
      ensures r in GetRoomsByGroupName(groups, groupName) <==> IsRoomInGroup(groups, r, groupName)
    {
      if r in GetRoomsByGroupName(groups, groupName) {
        var k :| 0 <= k < |sel| && Map(sel, Room)[k] == r;
        assert sel[k] in sel;
      }
      if IsRoomInGroup(groups, r, groupName) {
        var g :| g in groups && g.name == groupName && g.room == r;
        var k :| 0 <= k < |sel| && sel[k] == g;
        assert Map(sel, Room)[k] == r;
      }
    }
  }

  /** The rooms listed for a name are the rooms of that name's array in `groupsByName`,
      and there are none for a name no group carries. */
  lemma RoomsByGroupNameBuckets(groups: seq<RoomGroup>, groupName: string)
    ensures groupName in Buckets(groups).buckets ==>
              GetRoomsByGroupName(groups, groupName) == Map(Buckets(groups).buckets[groupName], Room)
    ensures groupName !in Buckets(groups).buckets ==> GetRoomsByGroupName(groups, groupName) == []
  {
    GroupsByNamePartition(groups);
    if groupName !in Buckets(groups).buckets {
      NamedGroup(groups, groupName);
      FilterNoneKept(groups, NameIs(groupName));
    }
  }

  /** A room is in a named group exactly when that name is among the names of the room's
      groups. */
  lemma RoomGroupsSpec(groups: seq<RoomGroup>, roomId: int, groupName: string)
    ensures IsRoomInGroup(groups, roomId, groupName) <==> groupName in Map(GetRoomGroups(groups, roomId), Name)
  {
    NamedGroup(GetRoomGroups(groups, roomId), groupName);
  }

  /** JavaScript's array-index keys: canonical decimal numbers below 2^32 - 1. Objects
      list them before their other keys. */
  predicate IsArrayIndex(k: string) {
    var v := ParseNat(k);
    0 <= v < 0xFFFF_FFFF && NatToString(v) == k
  }

  /** The order `Object.entries` lists an object's own keys in: the array-index keys in
      ascending numeric order, then the others in creation order. */
  function EntryOrder(keys: seq<string>): seq<string> {
    SortedFirst(keys, IsArrayIndex, ParseNat)
  }

  /** `EntryOrder` lists each key once, puts every array-index key before every other key
      and in increasing numeric order, and keeps the other keys in creation order. */
  lemma EntryOrderSpec(keys: seq<string>)
    ensures multiset(EntryOrder(keys)) == multiset(keys)
    ensures Distinct(keys) ==> Distinct(EntryOrder(keys))
    ensures forall i, j :: 0 <= i < j < |EntryOrder(keys)| && IsArrayIndex(EntryOrder(keys)[j]) ==>
              IsArrayIndex(EntryOrder(keys)[i]) && ParseNat(EntryOrder(keys)[i]) <= ParseNat(EntryOrder(keys)[j])
    ensures Filter(EntryOrder(keys), Not(IsArrayIndex)) == Filter(keys, Not(IsArrayIndex))
  {
    SortedFirstPermutes(keys, IsArrayIndex, ParseNat);
    SortedFirstOrder(keys, IsArrayIndex, ParseNat);
    SortedFirstRest(keys, IsArrayIndex, ParseNat);
    if Distinct(keys) {
      DistinctPermutation(EntryOrder(keys), keys);
    }
  }

  /** `EntryOrder` only reorders the keys. */
  lemma EntryOrderNames(keys: seq<string>)
    ensures multiset(EntryOrder(keys)) == multiset(keys)
    ensures Distinct(keys) ==> Distinct(EntryOrder(keys))
  {
    SortedFirstPermutes(keys, IsArrayIndex, ParseNat);
    if Distinct(keys) {
      DistinctPermutation(EntryOrder(keys), keys);
    }
  }

  /** The `[name, groups]` pairs `Object.entries(groupsByName)` returns. */
  function Entries(index: NameIndex): seq<(string, seq<RoomGroup>)> {
    Map(EntryOrder(index.keys), (k: string) => (k, if k in index.buckets then index.buckets[k] else []))
  }

  function OptionOf(entry: (string, seq<RoomGroup>)): GroupOption {
    GroupOption(entry.0, entry.0, |entry.1|)
  }

  /** What `groupOptions` holds for a list of groups. */
  function GroupOptionsOf(groups: seq<RoomGroup>): seq<GroupOption> {
    Map(Entries(Buckets(groups)), OptionOf)
  }

  /** `groupOptions`: the `forEach` over the entries of `groupsByName`, pushing one option
      per name. */
  method GroupOptions(roomGroups: seq<RoomGroup>) returns (options: seq<GroupOption>)
    ensures options == GroupOptionsOf(roomGroups)
  {
    var groupsByName := GroupsByName(roomGroups);
    var entries := Entries(groupsByName);
    options := [];
    for i := 0 to |entries|
      invariant options == Map(entries[..i], OptionOf)
    {
      var (name, groups) := entries[i];
      MapSnoc(entries, i, OptionOf);
      options := options + [GroupOption(name, name, |groups|)];
    }
    assert entries[..|entries|] == entries;
  }

  function Label(o: GroupOption): string { o.labelText }

  function OptionCount(o: GroupOption): int { o.count }

  /** The number of groups carrying each name. */
  function CountOf(groups: seq<RoomGroup>): string -> int {
    n => Count(groups, NameIs(n))
  }

  /** Appending a group adds one to the count of its name and leaves the others. */
  lemma CountOfSnoc(init: seq<RoomGroup>, g: RoomGroup)
    ensures forall n :: CountOf(init + [g])(n) == CountOf(init)(n) + (if n == g.name then 1 else 0)
  {
    assert (init + [g])[..|init|] == init;
  }

  /** A name no group carries has count zero. */
  lemma CountOfAbsent(groups: seq<RoomGroup>, n: string)
    requires n !in Map(groups, Name)
    ensures CountOf(groups)(n) == 0
  {
    NamedGroup(groups, n);
    FilterNoneKept(groups, NameIs(n));
    FilterCount(groups, NameIs(n));
  }

  /** Appending a group whose name is already listed adds one to the sum of the counts. */
  lemma SumCountsKnownName(d: seq<string>, init: seq<RoomGroup>, g: RoomGroup)
    requires g.name in d && Distinct(d)
    ensures Sum(Map(d, CountOf(init + [g]))) == Sum(Map(d, CountOf(init))) + 1
  {
    CountOfSnoc(init, g);
    SumMapBump(d, CountOf(init), CountOf(init + [g]), g.name);
    DistinctOnce(d, g.name);
  }

  /** Appending a group with a new name lists the name once more, with count one. */
  lemma SumCountsNewName(d: seq<string>, init: seq<RoomGroup>, g: RoomGroup)
    requires g.name !in d && g.name !in Map(init, Name)
    ensures Sum(Map(d + [g.name], CountOf(init + [g]))) == Sum(Map(d, CountOf(init))) + 1
  {
    CountOfSnoc(init, g);
    SumMapBump(d, CountOf(init), CountOf(init + [g]), g.name);
    assert multiset(d)[g.name] == 0;
    CountOfAbsent(init, g.name);
    MapConcat(d, [g.name], CountOf(init + [g]));
    SumConcat(Map(d, CountOf(init + [g])), Map([g.name], CountOf(init + [g])));
  }

  /** Over the unique names, the group counts add up to the length of the list. */
  lemma {:induction false} SumOfCounts(groups: seq<RoomGroup>)
    ensures Sum(Map(Dedup(Map(groups, Name)), CountOf(groups))) == |groups|
    decreases |groups|
  {
    if groups != [] {
      var init, g := groups[..|groups| - 1], groups[|groups| - 1];
      assert groups == init + [g];
      SumOfCounts(init);
      var names := Map(groups, Name);
      assert names[..|names| - 1] == Map(init, Name);
      var d := Dedup(Map(init, Name));
      assert Distinct(d) && (g.name in d <==> g.name in Map(init, Name)) by {
        DedupSpec(Map(init, Name));
      }
      if g.name in d {
        SumCountsKnownName(d, init, g);
      } else {
        SumCountsNewName(d, init, g);
      }
    }
  }

  /** The labels of `groupOptions` are the keys of `groupsByName` in entry order, and each
      option's value is its label. */
  lemma GroupOptionLabels(groups: seq<RoomGroup>)
    ensures Map(GroupOptionsOf(groups), Label) == EntryOrder(Buckets(groups).keys)
    ensures forall i :: 0 <= i < |GroupOptionsOf(groups)| ==>
              GroupOptionsOf(groups)[i].value == GroupOptionsOf(groups)[i].labelText
  {
    var opts := GroupOptionsOf(groups);
    var order := EntryOrder(Buckets(groups).keys);
    assert Map(opts, Label) == order by {
      forall i | 0 <= i < |opts|
        ensures opts[i].labelText == order[i]
      {
        assert opts[i] == OptionOf(Entries(Buckets(groups))[i]);
      }
    }
  }

  /** Each option's count is the number of groups carrying its label. */
  lemma GroupOptionCounts(groups: seq<RoomGroup>)
    ensures forall i :: 0 <= i < |GroupOptionsOf(groups)| ==>
              GroupOptionsOf(groups)[i].count == CountOf(groups)(GroupOptionsOf(groups)[i].labelText)
  {
    var index := Buckets(groups);
    var order := EntryOrder(index.keys);
    var opts := GroupOptionsOf(groups);
    GroupsByNamePartition(groups);
    EntryOrderNames(index.keys);
    forall i | 0 <= i < |opts|
      ensures opts[i].count == CountOf(groups)(opts[i].labelText)
    {
      var n := order[i];
      assert opts[i] == OptionOf(Entries(index)[i]);
      assert n in multiset(index.keys);
      assert n in index.keys;
      FilterCount(groups, NameIs(n));
    }
  }

  /** The labels and counts of `groupOptions`, in terms of the unique names. */
  lemma GroupOptionsAt(groups: seq<RoomGroup>)
    ensures Map(GroupOptionsOf(groups), Label) == EntryOrder(UniqueGroupNames(groups))
    ensures forall i :: 0 <= i < |GroupOptionsOf(groups)| ==>
              GroupOptionsOf(groups)[i].value == GroupOptionsOf(groups)[i].labelText
              && GroupOptionsOf(groups)[i].count == CountOf(groups)(GroupOptionsOf(groups)[i].labelText)
  {
    GroupsByNamePartition(groups);
    GroupOptionLabels(groups);
    GroupOptionCounts(groups);
  }

  /** `groupOptions` lists each unique name exactly once. */
  lemma GroupOptionNames(groups: seq<RoomGroup>)
    ensures multiset(Map(GroupOptionsOf(groups), Label)) == multiset(UniqueGroupNames(groups))
    ensures Distinct(Map(GroupOptionsOf(groups), Label))
  {
    var keys := UniqueGroupNames(groups);
    GroupOptionsAt(groups);
    EntryOrderNames(keys);
  }

  /** Every count of `groupOptions` is at least one. */
  lemma GroupOptionsPositive(groups: seq<RoomGroup>)
    ensures forall i :: 0 <= i < |GroupOptionsOf(groups)| ==> GroupOptionsOf(groups)[i].count >= 1
  {
    var opts := GroupOptionsOf(groups);
    var keys := UniqueGroupNames(groups);
    GroupOptionsAt(groups);
    EntryOrderNames(keys);
    forall i | 0 <= i < |opts|
      ensures opts[i].count >= 1
    {
      assert opts[i].labelText == Map(opts, Label)[i];
      assert opts[i].labelText in multiset(keys);
      CountPositive(groups, opts[i].labelText);
    }
  }

  /** A name some group carries has a positive count. */
  lemma CountPositive(groups: seq<RoomGroup>, n: string)
    requires n in Map(groups, Name)
    ensures Count(groups, NameIs(n)) >= 1
  {
    FilterCount(groups, NameIs(n));
    NamedGroup(groups, n);
    var g :| g in groups && g.name == n;
    FilterMembers(groups, NameIs(n));
    assert g in Filter(groups, NameIs(n));
  }

  /** The counts of `groupOptions` add up to the number of groups. */
  lemma GroupOptionsSum(groups: seq<RoomGroup>)
    ensures Sum(Map(GroupOptionsOf(groups), OptionCount)) == |groups|
  {
    var opts := GroupOptionsOf(groups);
    var keys := UniqueGroupNames(groups);
    var order := EntryOrder(keys);
    GroupOptionsAt(groups);
    EntryOrderNames(keys);
    assert Map(opts, OptionCount) == Map(order, CountOf(groups)) by {
      forall i | 0 <= i < |opts|
        ensures opts[i].count == CountOf(groups)(order[i])
      {
        assert order[i] == Map(opts, Label)[i];
      }
    }
    SumMapPermutation(order, keys, CountOf(groups));
    SumOfCounts(groups);
  }

  /** The names a plain object `{}` inherits from `Object.prototype`. */
  const OBJECT_PROTOTYPE_KEYS: set<string> := {
    "constructor", "hasOwnProperty", "isPrototypeOf", "propertyIsEnumerable",
    "toLocaleString", "toString", "valueOf", "__proto__",
    "__defineGetter__", "__defineSetter__", "__lookupGetter__", "__lookupSetter__" }

  predicate InheritedName(g: RoomGroup) {
    g.name in OBJECT_PROTOTYPE_KEYS
  }

  /** One step of the `forEach` in `groupsByName` as a JavaScript engine runs it: a name
      the object inherits reads as a truthy value, so no array is created, `??=` keeps the
      inherited value and calling `push` on it throws. */
  function AsWrittenAddGroup(index: Result<NameIndex>, g: RoomGroup): Result<NameIndex> {
    match index
    case Throws(_) => index
    case Ok(idx) =>
      if g.name in idx.buckets then Ok(AddGroup(idx, g))
      else if g.name in OBJECT_PROTOTYPE_KEYS then Throws("groups[group.name].push is not a function")
      else Ok(AddGroup(idx, g))
  }

  function AsWrittenGroupsByName(groups: seq<RoomGroup>): Result<NameIndex>
    decreases |groups|
  {
    if groups == [] then Ok(NameIndex([], map[]))
    else AsWrittenAddGroup(AsWrittenGroupsByName(groups[..|groups| - 1]), groups[|groups| - 1])
  }

  /** As written, `groupsByName` throws exactly when some group is named after an inherited
      property, and otherwise builds the same object as `Buckets`. */
  lemma {:induction false} AsWrittenThrowsOnInheritedNames(groups: seq<RoomGroup>)
    ensures AsWrittenGroupsByName(groups).Throws? <==> exists g :: g in groups && InheritedName(g)
    ensures AsWrittenGroupsByName(groups).Ok? ==> AsWrittenGroupsByName(groups).value == Buckets(groups)
    decreases |groups|
  {
    if groups != [] {
      var init, g := groups[..|groups| - 1], groups[|groups| - 1];
      AsWrittenThrowsOnInheritedNames(init);
      assert groups == init + [g];
      assert g in groups;
      if AsWrittenGroupsByName(init).Throws? {
        var x :| x in init && InheritedName(x);
        assert x in groups;
      } else if g.name in Buckets(init).buckets {
        GroupsByNamePartition(init);
        NamedGroup(init, g.name);
        var x :| x in init && x.name == g.name;
        assert InheritedName(g) ==> InheritedName(x);
      }
    }
  }

  /** A single group named `constructor` makes the source's `groupsByName` throw, while
      the grouping it evidently intends has that name as its one key. */
  lemma ConstructorNameThrows()
    ensures AsWrittenGroupsByName([RoomGroup(1, "constructor", 7)]).Throws?
    ensures Buckets([RoomGroup(1, "constructor", 7)]).keys == ["constructor"]
  {
    var groups := [RoomGroup(1, "constructor", 7)];
    assert groups[..0] == [];
  }
}
