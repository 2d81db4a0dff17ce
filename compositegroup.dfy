/** sakkara/relation/compositegroup.py: the later composite-group version. A
    composite group is an atomic group with members and parent groups
    (`CompositeAtomicGroup`) or a pair of composite groups
    (`CompositeGroupPair`). The member loops are shared with the composite
    version; what differs is the dispatch (equal representation groups first,
    then `a_parent_b`) and `map_from` on atomic groups. The relations of the
    base classes that are not part of this model (`GroupPair.a_parent_b`,
    `get_representation_groups`, `get_parents`, `is_parent_to`) are the
    functions of a `GroupRelations` value. */
module CompositeGroups {
  import opened Seqs
  import opened Composites

  datatype CompositeGroup =
    | AtomicGroup(name: string, members: seq<Member>, parents: set<CompositeGroup>)
    | GroupPair(a: CompositeGroup, b: CompositeGroup, members: seq<Member>)

  /** `aParentB(a, b)` is `GroupPair.a_parent_b()`: `Some(true)` when `a` is
      the parent, `Some(false)` when `b` is, `None` when they are unrelated. */
  datatype GroupRelations = GroupRelations(
    representationGroups: CompositeGroup -> set<CompositeGroup>,
    aParentB: (CompositeGroup, CompositeGroup) -> Option<bool>,
    memberIsParentTo: (Member, Member) -> bool,
    groupParents: CompositeGroup -> set<CompositeGroup>,
    memberParents: Member -> set<Member>)

  /** `OrderedGroupPair(m[0].index, m[0], m[1])` over `zip(a_members, b_members)`. */
  function ZipMembers(ams: seq<Member>, bms: seq<Member>): (r: seq<Member>)
    ensures |r| == if |ams| <= |bms| then |ams| else |bms|
    ensures forall i | 0 <= i < |r| :: r[i] == PairMember(ams[i].index, ams[i], bms[i])
  {
    var n := if |ams| <= |bms| then |ams| else |bms|;
    seq(n, i requires 0 <= i < n => PairMember(ams[i].index, ams[i], bms[i]))
  }

  /** The members `CompositeGroupPair(a, b).init_members()` computes; `None`
      stands for the `StopIteration` of a child member without a parent member. */
  function InitMembersSpec(rel: GroupRelations, a: CompositeGroup, b: CompositeGroup): Option<seq<Member>> {
    if rel.representationGroups(a) == rel.representationGroups(b) then
      Some(ZipMembers(a.members, b.members))
    else
      match rel.aParentB(a, b)
      case Some(aParent) =>
        var parent := if aParent then a else b;
        var child := if aParent then b else a;
        ParentChildPairs(rel.memberIsParentTo, parent.members, child.members, aParent)
      case None =>
        Some(SameLevelPairs(rel.memberParents, |rel.groupParents(a) * rel.groupParents(b)|, a.members, b.members))
  }

  /** `parent_child_init(a_parent)`. */
  method ParentChildInit(rel: GroupRelations, a: CompositeGroup, b: CompositeGroup, aParent: bool)
    returns (r: Option<seq<Member>>)
    ensures r == ParentChildPairs(rel.memberIsParentTo, (if aParent then a else b).members,
                                  (if aParent then b else a).members, aParent)
  {
    var parent := if aParent then a else b;
    var child := if aParent then b else a;
    r := ParentChildMembers(rel.memberIsParentTo, parent.members, child.members, aParent);
  }

  /** `same_level_init()`. */
  method SameLevelInit(rel: GroupRelations, a: CompositeGroup, b: CompositeGroup) returns (r: seq<Member>)
    ensures r == SameLevelPairs(rel.memberParents, |rel.groupParents(a) * rel.groupParents(b)|, a.members, b.members)
  {
    var common := rel.groupParents(a) * rel.groupParents(b);
    r := SameLevelMembers(rel.memberParents, |common|, a.members, b.members);
  }

  /** `CompositeGroupPair.init_members` as the source runs it. It computes
      `InitMembersSpec`; the lemmas about the members
      (`SameRepresentationMembers`, `ParentChildMembersSpec`,
      `SameLevelMembersSpec`, `InitMembersArePairs`) are stated on that
      function. */
  method InitMembers(rel: GroupRelations, a: CompositeGroup, b: CompositeGroup) returns (r: Option<seq<Member>>)
    ensures r == InitMembersSpec(rel, a, b)
  {
    if rel.representationGroups(a) == rel.representationGroups(b) {
      return Some(ZipMembers(a.members, b.members));
    }
    var aParent := rel.aParentB(a, b);
    if aParent.Some? {
      r := ParentChildInit(rel, a, b, aParent.value);
    } else {
      var ms := SameLevelInit(rel, a, b);
      r := Some(ms);
    }
  }

  /** The constructor `CompositeGroupPair(a, b)`. */
  method NewGroupPair(rel: GroupRelations, a: CompositeGroup, b: CompositeGroup) returns (p: Option<CompositeGroup>)
    ensures p.Some? <==> InitMembersSpec(rel, a, b).Some?
    ensures p.Some? ==> p.value == GroupPair(a, b, InitMembersSpec(rel, a, b).value)
  {
    var ms := InitMembers(rel, a, b);
    if ms.Some? {
      p := Some(GroupPair(a, b, ms.value));
    } else {
      p := None;
    }
  }

  function ParentOf(a: CompositeGroup, b: CompositeGroup, aParent: bool): CompositeGroup {
    if aParent then a else b
  }

  function ChildOf(a: CompositeGroup, b: CompositeGroup, aParent: bool): CompositeGroup {
    if aParent then b else a
  }

  /** `__len__` of both kinds of composite group: the member count. */
  function Length(g: CompositeGroup): nat {
    |g.members|
  }

  /** With equal representation groups the members pair `a`'s and `b`'s
      members by position, each indexed by `a`'s member's index. */
  lemma SameRepresentationMembers(rel: GroupRelations, a: CompositeGroup, b: CompositeGroup)
    requires rel.representationGroups(a) == rel.representationGroups(b)
    ensures var r := InitMembersSpec(rel, a, b);
      r.Some? && |r.value| == (if |a.members| <= |b.members| then |a.members| else |b.members|) &&
      forall i | 0 <= i < |r.value| ::
        r.value[i] == PairMember(a.members[i].index, a.members[i], b.members[i])
  {
  }

  /** A parent-child pair: construction succeeds exactly when every child
      member has a parent member; there is then one member per child member,
      member i has index i, holds child member i and the FIRST parent member of
      it, and the parent member sits in the `a` slot exactly when `a` is the
      parent. */
  lemma ParentChildMembersSpec(rel: GroupRelations, a: CompositeGroup, b: CompositeGroup, aParent: bool)
    requires rel.representationGroups(a) != rel.representationGroups(b) && rel.aParentB(a, b) == Some(aParent)
    ensures InitMembersSpec(rel, a, b).Some? <==>
      forall i | 0 <= i < |ChildOf(a, b, aParent).members| ::
        exists j :: 0 <= j < |ParentOf(a, b, aParent).members| &&
          rel.memberIsParentTo(ParentOf(a, b, aParent).members[j], ChildOf(a, b, aParent).members[i])
    ensures InitMembersSpec(rel, a, b).Some? ==>
      Length(GroupPair(a, b, InitMembersSpec(rel, a, b).value)) == |ChildOf(a, b, aParent).members|
    ensures InitMembersSpec(rel, a, b).Some? ==>
      forall i | 0 <= i < |ChildOf(a, b, aParent).members| ::
        var m := InitMembersSpec(rel, a, b).value[i];
        m.PairMember? && m.index == i && (if aParent then m.b else m.a) == ChildOf(a, b, aParent).members[i]
    ensures InitMembersSpec(rel, a, b).Some? ==>
      forall i | 0 <= i < |ChildOf(a, b, aParent).members| ::
        var m := InitMembersSpec(rel, a, b).value[i];
        var ps := ParentOf(a, b, aParent).members;
        m.PairMember? &&
        exists k :: 0 <= k < |ps| && ps[k] == (if aParent then m.a else m.b) &&
                    rel.memberIsParentTo(ps[k], ChildOf(a, b, aParent).members[i]) &&
                    forall j | 0 <= j < k :: !rel.memberIsParentTo(ps[j], ChildOf(a, b, aParent).members[i])
  {
    var parent, child := ParentOf(a, b, aParent), ChildOf(a, b, aParent);
    assert InitMembersSpec(rel, a, b) == ParentChildPairs(rel.memberIsParentTo, parent.members, child.members, aParent);
    ParentChildPairsSucceed(rel.memberIsParentTo, parent.members, child.members, aParent);
    ParentChildPairsShape(rel.memberIsParentTo, parent.members, child.members, aParent);
  }

  /** An unrelated pair keeps combination `(a_i, b_j)`, with index
      `Cell(|b|, i, j) == i*|b| + j`, exactly when the two members share as
      many parent members as the groups share parent groups. */
  lemma SameLevelMembersSpec(rel: GroupRelations, a: CompositeGroup, b: CompositeGroup, i: nat, j: nat)
    requires rel.representationGroups(a) != rel.representationGroups(b) && rel.aParentB(a, b).None?
    requires i < |a.members| && j < |b.members|
    ensures InitMembersSpec(rel, a, b).Some?
    ensures PairMember(Cell(|b.members|, i, j), a.members[i], b.members[j]) in InitMembersSpec(rel, a, b).value <==>
      |rel.memberParents(a.members[i]) * rel.memberParents(b.members[j])| ==
      |rel.groupParents(a) * rel.groupParents(b)|
  {
    SameLevelKept(rel.memberParents, |rel.groupParents(a) * rel.groupParents(b)|, a.members, b.members, i, j);
  }

  /** Unrelated groups without common parents whose members share no parent
      members pair every member of `a` with every member of `b`, combination
      `(a_i, b_j)` at counter value `Cell(|b|, i, j)`. */
  lemma NoCommonParentsCartesian(rel: GroupRelations, a: CompositeGroup, b: CompositeGroup)
    requires rel.representationGroups(a) != rel.representationGroups(b) && rel.aParentB(a, b).None?
    requires rel.groupParents(a) * rel.groupParents(b) == {}
    requires forall i, j | 0 <= i < |a.members| && 0 <= j < |b.members| ::
      rel.memberParents(a.members[i]) * rel.memberParents(b.members[j]) == {}
    ensures var r := InitMembersSpec(rel, a, b).value;
      |r| == |a.members| * |b.members| &&
      forall i, j | 0 <= i < |a.members| && 0 <= j < |b.members| ::
        PairMember(Cell(|b.members|, i, j), a.members[i], b.members[j]) in r
  {
    assert |rel.groupParents(a) * rel.groupParents(b)| == 0;
    var r := SameLevelPairs(rel.memberParents, 0, a.members, b.members);
    assert InitMembersSpec(rel, a, b).value == r;
    SameLevelCartesian(rel.memberParents, a.members, b.members);
    CellIsProduct(|b.members|, |a.members|, 0);
    forall i, j | 0 <= i < |a.members| && 0 <= j < |b.members|
      ensures PairMember(Cell(|b.members|, i, j), a.members[i], b.members[j]) in r
    {
      SameLevelKept(rel.memberParents, 0, a.members, b.members, i, j);
      assert rel.memberParents(a.members[i]) * rel.memberParents(b.members[j]) == {};
    }
  }

  /** Every member a construction yields is a pair member. */
  lemma InitMembersArePairs(rel: GroupRelations, a: CompositeGroup, b: CompositeGroup)
    requires InitMembersSpec(rel, a, b).Some?
    ensures AllPairs(InitMembersSpec(rel, a, b).value)
  {
    if rel.representationGroups(a) == rel.representationGroups(b) {
    } else if rel.aParentB(a, b).Some? {
      ParentChildMembersSpec(rel, a, b, rel.aParentB(a, b).value);
    } else {
      var common := |rel.groupParents(a) * rel.groupParents(b)|;
      var f := KeepFn(rel.memberParents, common);
      assert forall m | m in SameLevelPairs(rel.memberParents, common, a.members, b.members) :: f(m);
    }
  }

  /** What `map_from(other)` returns. A pair answers for its own sides; an
      atomic group, and a pair asked about any other group, answer on the new
      pair `CompositeGroupPair(self, other)`. */
  function MapFromSpec(rel: GroupRelations, self: CompositeGroup, other: CompositeGroup): Option<seq<Member>>
    requires self.GroupPair? ==> AllPairs(self.members)
  {
    if self.GroupPair? && other == self.a then Some(Components(self.members, true))
    else if self.GroupPair? && other == self.b then Some(Components(self.members, false))
    else
      match InitMembersSpec(rel, self, other)
      case None => None
      case Some(ms) =>
        InitMembersArePairs(rel, self, other);
        Some(Components(ms, other == self))
  }

  /** `CompositeGroupPair.map_from` and `CompositeAtomicGroup.map_from`. It
      computes `MapFromSpec`, about which `MapFromSides` and `AtomicMapFrom`
      are stated. */
  method MapFrom(rel: GroupRelations, self: CompositeGroup, other: CompositeGroup) returns (r: Option<seq<Member>>)
    requires self.GroupPair? ==> AllPairs(self.members)
    ensures r == MapFromSpec(rel, self, other)
  {
    if self.GroupPair? && other == self.a {
      return Some(Components(self.members, true));
    }
    if self.GroupPair? && other == self.b {
      return Some(Components(self.members, false));
    }
    var p := NewGroupPair(rel, self, other);
    if p.None? {
      return None;
    }
    InitMembersArePairs(rel, self, other);
    r := Some(Components(p.value.members, p.value.a == other));
  }

  /** `map_from(a)` and `map_from(b)` of a pair give the `a` and the `b`
      component of every member, in member order. */
  lemma MapFromSides(rel: GroupRelations, self: CompositeGroup)
    requires self.GroupPair? && AllPairs(self.members)
    ensures var ra := MapFromSpec(rel, self, self.a);
      ra.Some? && |ra.value| == Length(self) &&
      forall i | 0 <= i < |self.members| :: ra.value[i] == self.members[i].a
    ensures self.b != self.a ==> var rb := MapFromSpec(rel, self, self.b);
      rb.Some? && |rb.value| == Length(self) &&
      forall i | 0 <= i < |self.members| :: rb.value[i] == self.members[i].b
  {
  }

  /** An atomic group maps from any other group through the pair it forms with
      it: the other group's components of that pair's members, in order. */
  lemma AtomicMapFrom(rel: GroupRelations, self: CompositeGroup, other: CompositeGroup)
    requires self.AtomicGroup? && other != self
    ensures var r := MapFromSpec(rel, self, other);
      r.Some? <==> InitMembersSpec(rel, self, other).Some?
    ensures var r := MapFromSpec(rel, self, other);
      r.Some? ==> var ms := InitMembersSpec(rel, self, other).value;
        |r.value| == |ms| && forall i | 0 <= i < |ms| :: ms[i].PairMember? && r.value[i] == ms[i].b
  {
    if InitMembersSpec(rel, self, other).Some? {
      InitMembersArePairs(rel, self, other);
    }
  }
}
