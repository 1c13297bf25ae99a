/** src/store/constraints.ts: converting a person's constraints between the flat list the
    server stores (each record naming its children by id) and the nested tree the
    requirements editor works on. */
module Constraints {
  import opened Wrappers
  import opened Seqs

  /** The target a root constraint applies to. */
  datatype ConstraintTarget = ConstraintTarget(target_type: Option<string>, target_id: Option<int>)

  /** The fields a conversion copies unchanged: kind (`type`), strength and data. */
  datatype ConstraintBody = ConstraintBody(kind: string, strength: string, data: Option<ConstraintTarget>)

  /** A constraint as the server lists it. */
  datatype Constraint = Constraint(id: int, body: ConstraintBody, children: Option<seq<int>>)

  /** A node of the nested structure. The nodes are shared objects, held in an arena
      keyed by id: `nested_children` and `parent` name nodes by their key. */
  datatype Node = Node(id: int, body: ConstraintBody, children: Option<seq<int>>,
                       nested_children: seq<int>, parent: Option<int>)

  type Arena = map<int, Node>

  /** The nested structure: the arena and the key of the root node. */
  datatype Nested = Nested(arena: Arena, root: int)

  // ---------------------------------------------------------------- transformToNested

  /** The node made for a constraint: its fields, no nested children, no parent. */
  function NewNode(c: Constraint): Node {
    Node(c.id, c.body, c.children, [], None)
  }

  /** The child ids a constraint lists, none when it has no list. */
  function ChildrenOf(c: Constraint): seq<int> {
    c.children.GetOr([])
  }

  /** The ids of the constraints. */
  function Ids(cs: seq<Constraint>): set<int> {
    set c | c in cs :: c.id
  }

  /** The first loop: one node per id, the last constraint with an id winning. */
  function InitArena(cs: seq<Constraint>): Arena
    decreases |cs|
  {
    if cs == [] then map[] else InitArena(cs[..|cs| - 1])[cs[|cs| - 1].id := NewNode(cs[|cs| - 1])]
  }

  /** One step of the inner loop: an existing child is pushed onto the parent's nested
      children and then takes the parent as its parent. */
  function Attach(a: Arena, parentId: int, childId: int): Arena {
    if childId in a && parentId in a then
      var a1 := a[parentId := a[parentId].(nested_children := a[parentId].nested_children + [childId])];
      a1[childId := a1[childId].(parent := Some(parentId))]
    else a
  }

  /** The inner loop over one constraint's child ids. */
  function AttachAll(a: Arena, parentId: int, childIds: seq<int>): Arena
    decreases |childIds|
  {
    if childIds == [] then a else Attach(AttachAll(a, parentId, childIds[..|childIds| - 1]), parentId, childIds[|childIds| - 1])
  }

  /** The second loop, over all constraints. */
  function LinkAll(a: Arena, cs: seq<Constraint>): Arena
    decreases |cs|
  {
    if cs == [] then a else AttachAll(LinkAll(a, cs[..|cs| - 1]), cs[|cs| - 1].id, ChildrenOf(cs[|cs| - 1]))
  }

  /** What `transformToNested(constraints, rootId)` returns: nothing for an empty list,
      otherwise the node keyed `rootId`, if there is one. */
  function NestedOf(cs: seq<Constraint>, rootId: int): Option<Nested> {
    if |cs| == 0 then None
    else
      var a := LinkAll(InitArena(cs), cs);
      if rootId in a then Some(Nested(a, rootId)) else None
  }

  /** `transformToNested`: fills the map, then links every listed child that exists to the
      node that lists it. */
  method TransformToNested(constraints: seq<Constraint>, rootId: int) returns (r: Option<Nested>)
    ensures r == NestedOf(constraints, rootId)
  {
    if |constraints| == 0 {
      return None;
    }
    var constraintMap: Arena := map[];
    for i := 0 to |constraints|
      invariant constraintMap == InitArena(constraints[..i])
    {
      assert constraints[..i + 1][..i] == constraints[..i];
      constraintMap := constraintMap[constraints[i].id := NewNode(constraints[i])];
    }
    assert constraints[..|constraints|] == constraints;
    ghost var initial := constraintMap;
    for i := 0 to |constraints|
      invariant constraintMap == LinkAll(initial, constraints[..i])
    {
      var c := constraints[i];
      assert constraints[..i + 1][..i] == constraints[..i];
      ghost var before := constraintMap;
      if c.children.Some? && |c.children.value| > 0 {
        var childIds := c.children.value;
        for j := 0 to |childIds|
          invariant constraintMap == AttachAll(before, c.id, childIds[..j])
        {
          assert childIds[..j + 1][..j] == childIds[..j];
          var childId := childIds[j];
          if childId in constraintMap {
            if c.id in constraintMap {
              var parent := constraintMap[c.id];
              constraintMap := constraintMap[c.id := parent.(nested_children := parent.nested_children + [childId])];
              constraintMap := constraintMap[childId := constraintMap[childId].(parent := Some(c.id))];
            }
          }
        }
        assert childIds[..|childIds|] == childIds;
      }
    }
    assert constraints[..|constraints|] == constraints;
    if rootId in constraintMap {
      r := Some(Nested(constraintMap, rootId));
    } else {
      r := None;
    }
  }

  /** The nested children a node gains from a list of constraints: the existing children
      listed by each constraint with that id, in list order. */
  function Listed(cs: seq<Constraint>, keys: set<int>, k: int): seq<int>
    decreases |cs|
  {
    if cs == [] then []
    else
      var c := cs[|cs| - 1];
      Listed(cs[..|cs| - 1], keys, k) + (if c.id == k then Filter(ChildrenOf(c), (x: int) => x in keys) else [])
  }

  /** The parent a node ends with: the last constraint listing it, or the one it had. */
  function LastParent(cs: seq<Constraint>, k: int, initial: Option<int>): Option<int>
    decreases |cs|
  {
    if cs == [] then initial
    else if k in ChildrenOf(cs[|cs| - 1]) then Some(cs[|cs| - 1].id)
    else LastParent(cs[..|cs| - 1], k, initial)
  }

  /** Linking never adds or removes a node and never changes a node's own fields. */
  predicate SameNodes(a: Arena, b: Arena) {
    a.Keys == b.Keys
    && forall k :: k in a ==> b[k].id == a[k].id && b[k].body == a[k].body && b[k].children == a[k].children
  }

  /** The inner loop keeps the nodes. */
  lemma {:induction false} AttachAllNodes(a: Arena, parentId: int, childIds: seq<int>)
    ensures SameNodes(a, AttachAll(a, parentId, childIds))
    decreases |childIds|
  {
    if childIds != [] {
      AttachAllNodes(a, parentId, childIds[..|childIds| - 1]);
    }
  }

  /** The inner loop appends the existing listed children to the parent. */
  lemma {:induction false} AttachAllChildren(a: Arena, parentId: int, childIds: seq<int>, k: int)
    requires parentId in a && k in a
    ensures k in AttachAll(a, parentId, childIds)
    ensures AttachAll(a, parentId, childIds)[k].nested_children
              == a[k].nested_children + (if k == parentId then Filter(childIds, (x: int) => x in a.Keys) else [])
    decreases |childIds|
  {
    AttachAllNodes(a, parentId, childIds);
    if childIds != [] {
      var init := childIds[..|childIds| - 1];
      AttachAllNodes(a, parentId, init);
      AttachAllChildren(a, parentId, init, k);
    }
  }

  /** The inner loop makes the parent the parent of each existing listed child. */
  lemma {:induction false} AttachAllParent(a: Arena, parentId: int, childIds: seq<int>, k: int)
    requires parentId in a && k in a
    ensures k in AttachAll(a, parentId, childIds)
    ensures AttachAll(a, parentId, childIds)[k].parent == (if k in childIds then Some(parentId) else a[k].parent)
    decreases |childIds|
  {
    AttachAllNodes(a, parentId, childIds);
    if childIds != [] {
      var init, x := childIds[..|childIds| - 1], childIds[|childIds| - 1];
      AttachAllNodes(a, parentId, init);
      AttachAllParent(a, parentId, init, k);
      assert childIds == init + [x];
    }
  }

  /** The second loop keeps the nodes. */
  lemma {:induction false} LinkAllNodes(a: Arena, cs: seq<Constraint>)
    ensures SameNodes(a, LinkAll(a, cs))
    decreases |cs|
  {
    if cs != [] {
      var init, c := cs[..|cs| - 1], cs[|cs| - 1];
      LinkAllNodes(a, init);
      AttachAllNodes(LinkAll(a, init), c.id, ChildrenOf(c));
    }
  }

  /** The second loop, node by node: the nested children gained are `Listed`. */
  lemma {:induction false} LinkAllChildren(a: Arena, cs: seq<Constraint>, k: int)
    requires (forall c :: c in cs ==> c.id in a) && k in a
    ensures k in LinkAll(a, cs)
    ensures LinkAll(a, cs)[k].nested_children == a[k].nested_children + Listed(cs, a.Keys, k)
    decreases |cs|
  {
    LinkAllNodes(a, cs);
    if cs != [] {
      var init, c := cs[..|cs| - 1], cs[|cs| - 1];
      forall c' | c' in init ensures c'.id in a {
        assert c' in cs;
      }
      LinkAllNodes(a, init);
      LinkAllChildren(a, init, k);
      AttachAllChildren(LinkAll(a, init), c.id, ChildrenOf(c), k);
    }
  }

  /** The second loop, node by node: the parent is `LastParent`. */
  lemma {:induction false} LinkAllParent(a: Arena, cs: seq<Constraint>, k: int)
    requires (forall c :: c in cs ==> c.id in a) && k in a
    ensures k in LinkAll(a, cs)
    ensures LinkAll(a, cs)[k].parent == LastParent(cs, k, a[k].parent)
    decreases |cs|
  {
    LinkAllNodes(a, cs);
    if cs != [] {
      var init, c := cs[..|cs| - 1], cs[|cs| - 1];
      forall c' | c' in init ensures c'.id in a {
        assert c' in cs;
      }
      LinkAllNodes(a, init);
      LinkAllParent(a, init, k);
      AttachAllParent(LinkAll(a, init), c.id, ChildrenOf(c), k);
    }
  }

  /** The first loop makes exactly one fresh node per id. */
  lemma {:induction false} InitArenaSpec(cs: seq<Constraint>)
    ensures InitArena(cs).Keys == Ids(cs)
    ensures forall k :: k in InitArena(cs) ==>
              InitArena(cs)[k].id == k && InitArena(cs)[k].nested_children == [] && InitArena(cs)[k].parent == None
    decreases |cs|
  {
    if cs != [] {
      var init := cs[..|cs| - 1];
      InitArenaSpec(init);
      assert cs == init + [cs[|cs| - 1]];
      assert Ids(cs) == Ids(init) + {cs[|cs| - 1].id};
    }
  }

  /** With distinct ids, the node of a constraint holds its own fields. */
  lemma {:induction false} InitArenaNode(cs: seq<Constraint>, i: nat)
    requires i < |cs| && Injective(cs, (c: Constraint) => c.id)
    ensures cs[i].id in InitArena(cs) && InitArena(cs)[cs[i].id] == NewNode(cs[i])
    decreases |cs|
  {
    InitArenaSpec(cs);
    assert cs == cs[..|cs| - 1] + [cs[|cs| - 1]];
    if i < |cs| - 1 {
      InitArenaNode(cs[..|cs| - 1], i);
    }
  }

  /** With distinct ids, a node gains exactly the listed children of its own constraint
      that exist, in the order it lists them. */
  lemma {:induction false} ListedUnique(cs: seq<Constraint>, keys: set<int>, i: nat)
    requires i < |cs| && Injective(cs, (c: Constraint) => c.id)
    ensures Listed(cs, keys, cs[i].id) == Filter(ChildrenOf(cs[i]), (x: int) => x in keys)
    decreases |cs|
  {
    var init := cs[..|cs| - 1];
    if i < |cs| - 1 {
      ListedUnique(init, keys, i);
    } else {
      ListedAbsent(init, keys, cs[i].id);
    }
  }

  /** A node gains nothing from constraints with other ids. */
  lemma {:induction false} ListedAbsent(cs: seq<Constraint>, keys: set<int>, k: int)
    requires forall c :: c in cs ==> c.id != k
    ensures Listed(cs, keys, k) == []
    decreases |cs|
  {
    if cs != [] {
      assert cs[|cs| - 1] in cs;
      forall c | c in cs[..|cs| - 1] ensures c.id != k {
        assert c in cs;
      }
      ListedAbsent(cs[..|cs| - 1], keys, k);
    }
  }

  /** The parent a node ends with is the last constraint listing it, and none when no
      constraint lists it. */
  lemma {:induction false} LastParentSpec(cs: seq<Constraint>, k: int)
    ensures LastParent(cs, k, None).None? <==> forall c :: c in cs ==> k !in ChildrenOf(c)
    ensures LastParent(cs, k, None).Some? ==>
              exists i :: 0 <= i < |cs| && LastParent(cs, k, None).value == cs[i].id && k in ChildrenOf(cs[i])
                          && forall j :: i < j < |cs| ==> k !in ChildrenOf(cs[j])
    decreases |cs|
  {
    if cs != [] {
      var init := cs[..|cs| - 1];
      LastParentSpec(init, k);
      assert cs == init + [cs[|cs| - 1]];
      if k !in ChildrenOf(cs[|cs| - 1]) && LastParent(init, k, None).Some? {
        var i :| 0 <= i < |init| && LastParent(init, k, None).value == init[i].id && k in ChildrenOf(init[i])
                 && forall j :: i < j < |init| ==> k !in ChildrenOf(init[j]);
        assert cs[i] == init[i];
      }
    }
  }

  /** `transformToNested`: nothing for an empty list or an unknown root; otherwise one
      node per id, the root keyed `rootId`; with distinct ids, each node holds its own
      constraint's fields and, as nested children, the listed children that exist, in
      the order listed; a node's parent is the last constraint listing it, or none. */
  lemma NestedOfSpec(cs: seq<Constraint>, rootId: int)
    ensures NestedOf(cs, rootId).Some? <==> rootId in Ids(cs)
    ensures NestedOf(cs, rootId).Some? ==>
              var a := NestedOf(cs, rootId).value.arena;
              NestedOf(cs, rootId).value.root == rootId
              && a.Keys == Ids(cs)
              && (forall k :: k in a ==> a[k].id == k && a[k].parent == LastParent(cs, k, None))
              && (Injective(cs, (c: Constraint) => c.id) ==>
                    forall i :: 0 <= i < |cs| ==>
                      a[cs[i].id].body == cs[i].body && a[cs[i].id].children == cs[i].children
                      && a[cs[i].id].nested_children == Filter(ChildrenOf(cs[i]), (x: int) => x in Ids(cs)))
  {
    var a0 := InitArena(cs);
    InitArenaSpec(cs);
    if cs == [] {
      assert Ids(cs) == {};
    } else {
      forall c | c in cs ensures c.id in a0 {
      }
      LinkAllNodes(a0, cs);
      forall k | k in a0
        ensures LinkAll(a0, cs)[k].parent == LastParent(cs, k, None)
      {
        LinkAllParent(a0, cs, k);
      }
      if Injective(cs, (c: Constraint) => c.id) {
        forall i | 0 <= i < |cs|
          ensures var a := LinkAll(a0, cs);
                  a[cs[i].id].body == cs[i].body && a[cs[i].id].children == cs[i].children
                  && a[cs[i].id].nested_children == Filter(ChildrenOf(cs[i]), (x: int) => x in Ids(cs))
        {
          InitArenaNode(cs, i);
          ListedUnique(cs, Ids(cs), i);
          LinkAllChildren(a0, cs, cs[i].id);
        }
      }
    }
  }

  // ---------------------------------------------------------------- root lookup

  /** The root predicate of `getPersonConstraints`: a `ROOT` constraint whose data targets
      the user with that id. */
  predicate IsRootFor(c: Constraint, personId: int) {
    c.body.kind == "ROOT" && c.body.data.Some?
    && c.body.data.value.target_type == Some("USER") && c.body.data.value.target_id == Some(personId)
  }

  /** `constraints.find(...)` with that predicate: the first root of the person, if any. */
  function FindRootConstraint(cs: seq<Constraint>, personId: int): (r: Option<Constraint>)
    ensures r.None? <==> forall c :: c in cs ==> !IsRootFor(c, personId)
    ensures r.Some? ==> exists i :: 0 <= i < |cs| && cs[i] == r.value && IsRootFor(r.value, personId)
                          && forall j :: 0 <= j < i ==> !IsRootFor(cs[j], personId)
  {
    var i := FindIndex(cs, (c: Constraint) => IsRootFor(c, personId));
    if i < 0 then None else Some(cs[i])
  }

  // ---------------------------------------------------------------- transformToFlat

  /** A nested constraint as the editor hands it back: a tree of values. A missing
      `nested_children` list behaves as an empty one and is written so. */
  datatype Tree = Tree(id: Option<int>, body: ConstraintBody, nested_children: seq<Tree>)

  /** A record of the flat list: the constraint's own fields, its parent's id and its
      children's ids. */
  datatype Flat = Flat(id: Option<int>, body: ConstraintBody, parent: Option<int>, children: seq<int>)

  /** `id || 0`: the id when it is truthy, otherwise 0. */
  function OrZero(id: Option<int>): int {
    if id.Some? && id.value != 0 then id.value else 0
  }

  /** `child.id || 0`, the id a record lists for a child node. */
  function ChildId(t: Tree): int {
    OrZero(t.id)
  }

  /** The record written for one node. */
  function FlatOf(t: Tree, parentId: Option<int>): Flat {
    Flat(t.id, t.body, parentId, Map(t.nested_children, ChildId))
  }

  /** The records `processConstraint(t, parentId)` appends: the node, then each of its
      children's records in turn. */
  function PreOrder(t: Tree, parentId: Option<int>): seq<Flat>
    decreases t, 1
  {
    [FlatOf(t, parentId)] + PreOrderChildren(t, |t.nested_children|)
  }

  /** The records of the first `n` children of `t`. */
  function PreOrderChildren(t: Tree, n: nat): seq<Flat>
    requires n <= |t.nested_children|
    decreases t, 0, n
  {
    if n == 0 then [] else PreOrderChildren(t, n - 1) + PreOrder(t.nested_children[n - 1], t.id)
  }

  /** `processConstraint`: appends the node's record to `result`, then processes each
      child with the node's id as parent. */
  method ProcessConstraint(constraint: Tree, parentId: Option<int>, result0: seq<Flat>) returns (result: seq<Flat>)
    ensures result == result0 + PreOrder(constraint, parentId)
    decreases constraint
  {
    var flatConstraint := Flat(constraint.id, constraint.body, parentId, Map(constraint.nested_children, ChildId));
    result := result0 + [flatConstraint];
    var children := constraint.nested_children;
    for i := 0 to |children|
      invariant result == result0 + [flatConstraint] + PreOrderChildren(constraint, i)
    {
      result := ProcessConstraint(children[i], constraint.id, result);
    }
  }

  /** `transformToFlat`: no records without a tree, otherwise its records in pre-order,
      the root without a parent. */
  method TransformToFlat(nestedConstraint: Option<Tree>) returns (result: seq<Flat>)
    ensures nestedConstraint.None? ==> result == []
    ensures nestedConstraint.Some? ==> result == PreOrder(nestedConstraint.value, None)
  {
    if nestedConstraint.None? {
      return [];
    }
    result := ProcessConstraint(nestedConstraint.value, None, []);
  }

  /** The number of nodes of a tree. */
  function Size(t: Tree): nat
    decreases t, 1
  {
    1 + SizeChildren(t, |t.nested_children|)
  }

  /** The number of nodes under the first `n` children of `t`. */
  function SizeChildren(t: Tree, n: nat): nat
    requires n <= |t.nested_children|
    decreases t, 0, n
  {
    if n == 0 then 0 else SizeChildren(t, n - 1) + Size(t.nested_children[n - 1])
  }

  /** One record per node. */
  lemma {:induction false} PreOrderSize(t: Tree, parentId: Option<int>)
    ensures |PreOrder(t, parentId)| == Size(t)
    decreases t, 1
  {
    PreOrderChildrenSize(t, |t.nested_children|);
  }

  lemma {:induction false} PreOrderChildrenSize(t: Tree, n: nat)
    requires n <= |t.nested_children|
    ensures |PreOrderChildren(t, n)| == SizeChildren(t, n)
    decreases t, 0, n
  {
    if n > 0 {
      PreOrderChildrenSize(t, n - 1);
      PreOrderSize(t.nested_children[n - 1], t.id);
    }
  }

  /** Record `k` hangs under an earlier record: its parent is that record's id and its
      own id (or 0) is among that record's children. */
  predicate LinkedBelow(s: seq<Flat>, k: int)
    requires 0 <= k < |s|
  {
    exists j :: 0 <= j < k && s[k].parent == s[j].id && OrZero(s[k].id) in s[j].children
  }

  /** Every record but the first hangs under an earlier one. */
  predicate ParentsPrecede(s: seq<Flat>) {
    forall k :: 0 < k < |s| ==> LinkedBelow(s, k)
  }

  /** Every record of a child list either heads a child (its parent is `parentId` and its
      id is listed in `ids`) or hangs under an earlier record. */
  predicate HeadsOrLinked(s: seq<Flat>, parentId: Option<int>, ids: seq<int>) {
    forall k :: 0 <= k < |s| ==> (s[k].parent == parentId && OrZero(s[k].id) in ids) || LinkedBelow(s, k)
  }

  /** A record hanging under an earlier one still does after records are put in front. */
  lemma LinkedShift(a: seq<Flat>, b: seq<Flat>, k: int)
    requires 0 <= k < |b| && LinkedBelow(b, k)
    ensures LinkedBelow(a + b, |a| + k)
  {
    var j :| 0 <= j < k && b[k].parent == b[j].id && OrZero(b[k].id) in b[j].children;
    assert (a + b)[|a| + j] == b[j] && (a + b)[|a| + k] == b[k];
  }

  /** ... and after records are appended. */
  lemma LinkedPrefix(a: seq<Flat>, b: seq<Flat>, k: int)
    requires 0 <= k < |a| && LinkedBelow(a, k)
    ensures LinkedBelow(a + b, k)
  {
    var j :| 0 <= j < k && a[k].parent == a[j].id && OrZero(a[k].id) in a[j].children;
    assert (a + b)[j] == a[j] && (a + b)[k] == a[k];
  }

  /** The flat list is a pre-order listing: the root comes first, and every later record
      hangs under an earlier record that lists it as a child. */
  lemma {:induction false} PreOrderLinked(t: Tree, parentId: Option<int>)
    ensures PreOrder(t, parentId)[0] == FlatOf(t, parentId)
    ensures ParentsPrecede(PreOrder(t, parentId))
    decreases t, 1
  {
    var s := PreOrder(t, parentId);
    var rest := PreOrderChildren(t, |t.nested_children|);
    PreOrderChildrenLinked(t, |t.nested_children|);
    forall k | 0 < k < |s|
      ensures LinkedBelow(s, k)
    {
      assert s[k] == rest[k - 1];
      if rest[k - 1].parent == t.id && OrZero(rest[k - 1].id) in Map(t.nested_children, ChildId) {
        assert s[0] == FlatOf(t, parentId);
      } else {
        LinkedShift([FlatOf(t, parentId)], rest, k - 1);
      }
    }
  }

  lemma {:induction false} PreOrderChildrenLinked(t: Tree, n: nat)
    requires n <= |t.nested_children|
    ensures HeadsOrLinked(PreOrderChildren(t, n), t.id, Map(t.nested_children, ChildId))
    decreases t, 0, n
  {
    if n > 0 {
      var ids := Map(t.nested_children, ChildId);
      var init := PreOrderChildren(t, n - 1);
      var child := t.nested_children[n - 1];
      var last := PreOrder(child, t.id);
      PreOrderChildrenLinked(t, n - 1);
      PreOrderLinked(child, t.id);
      var s := init + last;
      forall k | 0 <= k < |s|
        ensures (s[k].parent == t.id && OrZero(s[k].id) in ids) || LinkedBelow(s, k)
      {
        if k < |init| {
          assert s[k] == init[k];
          if !(init[k].parent == t.id && OrZero(init[k].id) in ids) {
            LinkedPrefix(init, last, k);
          }
        } else if k == |init| {
          assert s[k] == FlatOf(child, t.id);
          assert ids[n - 1] == ChildId(child);
        } else {
          LinkedShift(init, last, k - |init|);
        }
      }
    }
  }

  /** `transformToFlat`: nothing without a tree; otherwise one record per node, the root
      first and without a parent, each record's children the ids of its node's children,
      and every later record under an earlier one that lists it. */
  lemma TransformToFlatSpec(t: Tree)
    ensures |PreOrder(t, None)| == Size(t)
    ensures PreOrder(t, None)[0].parent == None && PreOrder(t, None)[0].id == t.id
    ensures PreOrder(t, None)[0].children == Map(t.nested_children, ChildId)
    ensures ParentsPrecede(PreOrder(t, None))
  {
    PreOrderSize(t, None);
    PreOrderLinked(t, None);
  }
}
