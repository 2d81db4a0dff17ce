/** sakkara/relation/composite.py, with the ordered records of
    sakkara/relation/ordered.py folded in. A composite is either a named base
    group (`CompositeBase`) or a pair of composites (`CompositePair`) whose
    members pair up the members of its two sides. The relations between groups
    and between members come from base classes that are not part of this model
    (`GroupPair.internal_relation`, `GroupBase.get_parents`, `is_parent_to`), so
    they are given as the functions of a `Relations` value. */
module Composites {
  import opened Seqs

  /** An ordered group: a member with its `index`. An atomic member
      (`OrderedGroupBase`) has a name and a set of parent members; a pair member
      (`OrderedGroupPair`) holds one member of each side. */
  datatype Member =
    | Atomic(index: nat, name: string, parents: set<Member>)
    | PairMember(index: nat, a: Member, b: Member)

  /** `CompositeBase(name, members, parents)` or `CompositePair(a, b)` with the
      members its constructor computed. */
  datatype Composite =
    | Base(name: string, members: seq<Member>, parents: set<Composite>)
    | Pair(a: Composite, b: Composite, members: seq<Member>)

  /** The relations supplied by the classes the composites derive from.
      `internalRelation(a, b)` is `(parent, child)` of the pair, `None` when the
      child is `None`. */
  datatype Relations = Relations(
    internalRelation: (Composite, Composite) -> Option<(Composite, Composite)>,
    memberIsParentTo: (Member, Member) -> bool,
    groupParents: Composite -> set<Composite>,
    memberParents: Member -> set<Member>)

  // ------------------------------------------------- parent-child members

  /** `next(filter(lambda p: p.is_parent_to(child_member), parents))` as a
      position: the first parent member of `cm`; `None` stands for the
      `StopIteration` raised when there is none. */
  function FirstParentIndex(isParentTo: (Member, Member) -> bool, parents: seq<Member>, cm: Member): (k: Option<nat>)
    ensures k.Some? ==> k.value < |parents| && isParentTo(parents[k.value], cm)
    ensures k.Some? ==> forall j | 0 <= j < k.value :: !isParentTo(parents[j], cm)
    ensures k.None? <==> forall j | 0 <= j < |parents| :: !isParentTo(parents[j], cm)
  {
    if |parents| == 0 then None
    else if isParentTo(parents[0], cm) then Some(0)
    else
      match FirstParentIndex(isParentTo, parents[1..], cm)
      case None => None
      case Some(k) => Some(k + 1)
  }

  /** `OrderedGroupPair(i, parent_member, child_member)` when the parent is the
      `a` side, `OrderedGroupPair(i, child_member, parent_member)` otherwise. */
  function Slot(i: nat, pm: Member, cm: Member, parentIsA: bool): Member {
    if parentIsA then PairMember(i, pm, cm) else PairMember(i, cm, pm)
  }

  /** The members after the first `n` iterations of the parent-child loop. */
  function ParentChildPrefix(isParentTo: (Member, Member) -> bool, parents: seq<Member>, children: seq<Member>,
                             parentIsA: bool, n: nat): Option<seq<Member>>
    requires n <= |children|
  {
    if n == 0 then Some([])
    else
      match ParentChildPrefix(isParentTo, parents, children, parentIsA, n - 1)
      case None => None
      case Some(ms) =>
        match FirstParentIndex(isParentTo, parents, children[n - 1])
        case None => None
        case Some(k) => Some(ms + [Slot(n - 1, parents[k], children[n - 1], parentIsA)])
  }

  /** The members of a parent-child pair: one per child member. */
  function ParentChildPairs(isParentTo: (Member, Member) -> bool, parents: seq<Member>, children: seq<Member>,
                            parentIsA: bool): Option<seq<Member>>
  {
    ParentChildPrefix(isParentTo, parents, children, parentIsA, |children|)
  }

  /** The parent-child loop succeeds exactly when every child member has a
      parent member; member i then carries index i, the first parent member of
      child member i, and child member i, the parent in the `a` slot exactly
      when the parent is the `a` side. */
  lemma {:induction false} ParentChildPrefixSpec(isParentTo: (Member, Member) -> bool, parents: seq<Member>,
                                                 children: seq<Member>, parentIsA: bool, n: nat)
    requires n <= |children|
    ensures var r := ParentChildPrefix(isParentTo, parents, children, parentIsA, n);
      (r.Some? <==> forall i | 0 <= i < n :: FirstParentIndex(isParentTo, parents, children[i]).Some?) &&
      (r.Some? ==> (|r.value| == n &&
                    forall i | 0 <= i < n ::
                      var k := FirstParentIndex(isParentTo, parents, children[i]).value;
                      r.value[i] == Slot(i, parents[k], children[i], parentIsA)))
  {
    if n > 0 {
      ParentChildPrefixSpec(isParentTo, parents, children, parentIsA, n - 1);
      var prev := ParentChildPrefix(isParentTo, parents, children, parentIsA, n - 1);
      var fk := FirstParentIndex(isParentTo, parents, children[n - 1]);
      if prev.Some? && fk.Some? {
        var r := prev.value + [Slot(n - 1, parents[fk.value], children[n - 1], parentIsA)];
        assert ParentChildPrefix(isParentTo, parents, children, parentIsA, n) == Some(r);
        forall i | 0 <= i < n - 1
          ensures r[i] == Slot(i, parents[FirstParentIndex(isParentTo, parents, children[i]).value], children[i], parentIsA)
        {
          assert r[i] == prev.value[i];
        }
        assert r[n - 1] == Slot(n - 1, parents[fk.value], children[n - 1], parentIsA);
      } else {
        assert ParentChildPrefix(isParentTo, parents, children, parentIsA, n).None?;
        if fk.None? {
          assert !FirstParentIndex(isParentTo, parents, children[n - 1]).Some?;
        }
      }
    }
  }

  lemma ParentChildPairsSucceed(isParentTo: (Member, Member) -> bool, parents: seq<Member>, children: seq<Member>,
                                parentIsA: bool)
    ensures ParentChildPairs(isParentTo, parents, children, parentIsA).Some? <==>
      forall i | 0 <= i < |children| :: exists j :: 0 <= j < |parents| && isParentTo(parents[j], children[i])
  {
    ParentChildPrefixSpec(isParentTo, parents, children, parentIsA, |children|);
    if forall i | 0 <= i < |children| :: exists j :: 0 <= j < |parents| && isParentTo(parents[j], children[i]) {
      forall i | 0 <= i < |children| ensures FirstParentIndex(isParentTo, parents, children[i]).Some? {
        var j :| 0 <= j < |parents| && isParentTo(parents[j], children[i]);
      }
    }
  }

  lemma ParentChildPairsShape(isParentTo: (Member, Member) -> bool, parents: seq<Member>, children: seq<Member>,
                              parentIsA: bool)
    ensures var r := ParentChildPairs(isParentTo, parents, children, parentIsA);
      r.Some? ==> (|r.value| == |children| &&
                   forall i | 0 <= i < |children| ::
                     r.value[i].PairMember? && r.value[i].index == i &&
                     (if parentIsA then r.value[i].b else r.value[i].a) == children[i])
    ensures var r := ParentChildPairs(isParentTo, parents, children, parentIsA);
      r.Some? ==> (|r.value| == |children| &&
                   forall i | 0 <= i < |children| ::
                     r.value[i].PairMember? &&
                     var pm := if parentIsA then r.value[i].a else r.value[i].b;
                     exists k :: 0 <= k < |parents| && parents[k] == pm && isParentTo(pm, children[i]) &&
                                 forall j | 0 <= j < k :: !isParentTo(parents[j], children[i]))
  {
    ParentChildPrefixSpec(isParentTo, parents, children, parentIsA, |children|);
    var r := ParentChildPairs(isParentTo, parents, children, parentIsA);
    if r.Some? {
      forall i | 0 <= i < |children|
        ensures var pm := if parentIsA then r.value[i].a else r.value[i].b;
          exists k :: 0 <= k < |parents| && parents[k] == pm && isParentTo(pm, children[i]) &&
                      forall j | 0 <= j < k :: !isParentTo(parents[j], children[i])
      {
        var k := FirstParentIndex(isParentTo, parents, children[i]).value;
        assert r.value[i] == Slot(i, parents[k], children[i], parentIsA);
      }
    }
  }

  /** The parent-child loop of `init_members`: for child member i, the first
      parent member that is a parent of it, paired in the slot order. */
  method ParentChildMembers(isParentTo: (Member, Member) -> bool, parents: seq<Member>, children: seq<Member>,
                            parentIsA: bool) returns (r: Option<seq<Member>>)
    ensures r == ParentChildPairs(isParentTo, parents, children, parentIsA)
  {
    var members: seq<Member> := [];
    for i := 0 to |children|
      invariant ParentChildPrefix(isParentTo, parents, children, parentIsA, i) == Some(members)
    {
      var p := FirstParentIndex(isParentTo, parents, children[i]);
      if p.None? {
        ParentChildFailureStays(isParentTo, parents, children, parentIsA, i + 1, |children|);
        return None;
      }
      members := members + [Slot(i, parents[p.value], children[i], parentIsA)];
    }
    return Some(members);
  }

  lemma {:induction false} ParentChildFailureStays(isParentTo: (Member, Member) -> bool, parents: seq<Member>,
                                                   children: seq<Member>, parentIsA: bool, n: nat, m: nat)
    requires n <= m <= |children|
    requires ParentChildPrefix(isParentTo, parents, children, parentIsA, n).None?
    ensures ParentChildPrefix(isParentTo, parents, children, parentIsA, m).None?
    decreases m - n
  {
    if n < m {
      ParentChildFailureStays(isParentTo, parents, children, parentIsA, n + 1, m);
    }
  }

  // ------------------------------------------------- same-level members

  /** A combination is kept when its two members share as many parent members
      as their groups share parent groups. */
  predicate Kept(memberParents: Member -> set<Member>, common: nat, m: Member) {
    m.PairMember? && |memberParents(m.a) * memberParents(m.b)| == common
  }

  function KeepFn(memberParents: Member -> set<Member>, common: nat): Member -> bool {
    m => Kept(memberParents, common, m)
  }

  /** Row i of the combinations: `(a_i, b_j)` with the counter value `i*|b| + j`. */
  function Row(ams: seq<Member>, bms: seq<Member>, i: nat): (r: seq<Member>)
    requires i < |ams|
    ensures |r| == |bms|
    ensures forall j | 0 <= j < |bms| :: r[j] == PairMember(Cell(|bms|, i, j), ams[i], bms[j])
  {
    seq(|bms|, j requires 0 <= j < |bms| => PairMember(Cell(|bms|, i, j), ams[i], bms[j]))
  }

  /** The combinations of the first `n` members of `ams` with every member of
      `bms`, in loop order. */
  function Grid(ams: seq<Member>, bms: seq<Member>, n: nat): seq<Member>
    requires n <= |ams|
  {
    if n == 0 then [] else Grid(ams, bms, n - 1) + Row(ams, bms, n - 1)
  }

  lemma {:induction false} GridLength(ams: seq<Member>, bms: seq<Member>, n: nat)
    requires n <= |ams|
    ensures |Grid(ams, bms, n)| == Cell(|bms|, n, 0)
  {
    if n > 0 {
      GridLength(ams, bms, n - 1);
    }
  }

  /** The grid holds combination `(a_i, b_j)` at its counter position. */
  lemma {:induction false} GridAt(ams: seq<Member>, bms: seq<Member>, n: nat, i: nat, j: nat)
    requires n <= |ams| && i < n && j < |bms|
    ensures Cell(|bms|, i, j) < |Grid(ams, bms, n)|
    ensures Grid(ams, bms, n)[Cell(|bms|, i, j)] == PairMember(Cell(|bms|, i, j), ams[i], bms[j])
  {
    GridLength(ams, bms, n - 1);
    var g, row := Grid(ams, bms, n - 1), Row(ams, bms, n - 1);
    assert Grid(ams, bms, n) == g + row;
    if i < n - 1 {
      GridAt(ams, bms, n - 1, i, j);
    } else {
      CellOffset(|bms|, i, j);
      assert Grid(ams, bms, n)[Cell(|bms|, i, j)] == row[j];
    }
  }

  /** Every element of the grid is a combination at its counter position. */
  lemma {:induction false} GridMembers(ams: seq<Member>, bms: seq<Member>, n: nat, m: Member)
    requires n <= |ams| && m in Grid(ams, bms, n)
    ensures exists i, j :: 0 <= i < n && 0 <= j < |bms| && m == PairMember(Cell(|bms|, i, j), ams[i], bms[j])
  {
    var g, row := Grid(ams, bms, n - 1), Row(ams, bms, n - 1);
    assert Grid(ams, bms, n) == g + row;
    if m in g {
      GridMembers(ams, bms, n - 1, m);
    } else {
      var j :| 0 <= j < |bms| && row[j] == m;
      assert m == PairMember(Cell(|bms|, n - 1, j), ams[n - 1], bms[j]);
    }
  }

  /** The counter value of combination `(a_i, b_j)` when `b` has `w` members. */
  function Cell(w: nat, i: nat, j: nat): nat {
    if i == 0 then j else Cell(w, i - 1, j) + w
  }

  /** The counter is `i*w + j`. */
  lemma {:induction false} CellIsProduct(w: nat, i: nat, j: nat)
    ensures Cell(w, i, j) == i * w + j
  {
    if i > 0 {
      CellIsProduct(w, i - 1, j);
    }
  }

  lemma {:induction false} CellNextRow(w: nat, i: nat)
    ensures Cell(w, i, w) == Cell(w, i + 1, 0)
  {
    if i > 0 {
      CellNextRow(w, i - 1);
    }
  }

  lemma {:induction false} CellOffset(w: nat, i: nat, j: nat)
    ensures Cell(w, i, j) == Cell(w, i, 0) + j
  {
    if i > 0 {
      CellOffset(w, i - 1, j);
    }
  }

  /** The members of a same-level pair: the kept combinations, in loop order. */
  function SameLevelPairs(memberParents: Member -> set<Member>, common: nat, ams: seq<Member>, bms: seq<Member>): seq<Member> {
    Filter(Grid(ams, bms, |ams|), KeepFn(memberParents, common))
  }

  /** Combination `(a_i, b_j)` is a member exactly when it is kept, and it then
      carries the counter value `Cell(|b|, i, j)`, that is `i*|b| + j`. */
  lemma SameLevelKept(memberParents: Member -> set<Member>, common: nat, ams: seq<Member>, bms: seq<Member>,
                      i: nat, j: nat)
    requires i < |ams| && j < |bms|
    ensures PairMember(Cell(|bms|, i, j), ams[i], bms[j]) in SameLevelPairs(memberParents, common, ams, bms)
      <==> |memberParents(ams[i]) * memberParents(bms[j])| == common
  {
    GridAt(ams, bms, |ams|, i, j);
  }

  /** There are at most `|a|*|b|` members. */
  lemma SameLevelBound(memberParents: Member -> set<Member>, common: nat, ams: seq<Member>, bms: seq<Member>)
    ensures |SameLevelPairs(memberParents, common, ams, bms)| <= Cell(|bms|, |ams|, 0)
  {
    GridLength(ams, bms, |ams|);
  }

  /** Nothing but kept combinations is a member. */
  lemma SameLevelOnlyKept(memberParents: Member -> set<Member>, common: nat, ams: seq<Member>, bms: seq<Member>,
                          m: Member)
    ensures m in SameLevelPairs(memberParents, common, ams, bms) ==>
      exists i, j :: (0 <= i < |ams| && 0 <= j < |bms| &&
                      m == PairMember(Cell(|bms|, i, j), ams[i], bms[j]) &&
                      |memberParents(ams[i]) * memberParents(bms[j])| == common)
  {
    if m in SameLevelPairs(memberParents, common, ams, bms) {
      GridMembers(ams, bms, |ams|, m);
    }
  }

  /** Without common parent groups and without shared parent members, every
      combination is kept: the members are the Cartesian product. */
  lemma SameLevelCartesian(memberParents: Member -> set<Member>, ams: seq<Member>, bms: seq<Member>)
    requires forall i, j | 0 <= i < |ams| && 0 <= j < |bms| :: memberParents(ams[i]) * memberParents(bms[j]) == {}
    ensures SameLevelPairs(memberParents, 0, ams, bms) == Grid(ams, bms, |ams|)
    ensures |SameLevelPairs(memberParents, 0, ams, bms)| == Cell(|bms|, |ams|, 0)
  {
    GridLength(ams, bms, |ams|);
    var g := Grid(ams, bms, |ams|);
    var f := KeepFn(memberParents, 0);
    forall m | m in g ensures f(m) {
      GridMembers(ams, bms, |ams|, m);
      var i, j :| 0 <= i < |ams| && 0 <= j < |bms| && m == PairMember(Cell(|bms|, i, j), ams[i], bms[j]);
      assert memberParents(ams[i]) * memberParents(bms[j]) == {};
    }
    FilterAll(g, f);
  }

  lemma {:induction false} FilterAll<T>(s: seq<T>, f: T -> bool)
    requires forall x | x in s :: f(x)
    ensures Filter(s, f) == s
  {
    if |s| > 0 {
      assert forall x | x in s[..|s| - 1] :: x in s;
      FilterAll(s[..|s| - 1], f);
      assert s == s[..|s| - 1] + [s[|s| - 1]];
    }
  }

  lemma {:induction false} FilterConcat<T>(s: seq<T>, t: seq<T>, f: T -> bool)
    ensures Filter(s + t, f) == Filter(s, f) + Filter(t, f)
    decreases |t|
  {
    if |t| == 0 {
      assert s + t == s;
    } else {
      var t' := t[..|t| - 1];
      assert (s + t)[..|s + t| - 1] == s + t';
      FilterConcat(s, t', f);
    }
  }

  lemma FilterSnoc<T>(s: seq<T>, j: nat, f: T -> bool)
    requires j < |s|
    ensures Filter(s[..j + 1], f) == Filter(s[..j], f) + (if f(s[j]) then [s[j]] else [])
  {
    assert s[..j + 1][..j] == s[..j];
  }

  /** The same-level loop of `init_members`: every combination `(a_i, b_j)` is
      visited with a running counter and kept by the shared-parent test. */
  method SameLevelMembers(memberParents: Member -> set<Member>, common: nat, ams: seq<Member>, bms: seq<Member>)
    returns (r: seq<Member>)
    ensures r == SameLevelPairs(memberParents, common, ams, bms)
  {
    var f := KeepFn(memberParents, common);
    r := [];
    var counter := 0;
    for i := 0 to |ams|
      invariant counter == Cell(|bms|, i, 0)
      invariant r == Filter(Grid(ams, bms, i), f)
    {
      var kept;
      kept, counter := SameLevelRow(memberParents, common, ams, bms, i, counter);
      FilterConcat(Grid(ams, bms, i), Row(ams, bms, i), f);
      r := r + kept;
    }
  }

  /** The inner loop over the members of `b` for member i of `a`. */
  method SameLevelRow(memberParents: Member -> set<Member>, common: nat, ams: seq<Member>, bms: seq<Member>,
                      i: nat, counter0: nat) returns (kept: seq<Member>, counter: nat)
    requires i < |ams| && counter0 == Cell(|bms|, i, 0)
    ensures kept == Filter(Row(ams, bms, i), KeepFn(memberParents, common))
    ensures counter == Cell(|bms|, i + 1, 0)
  {
    var f := KeepFn(memberParents, common);
    var row := Row(ams, bms, i);
    kept := [];
    counter := counter0;
    for j := 0 to |bms|
      invariant counter == Cell(|bms|, i, j)
      invariant kept == Filter(row[..j], f)
    {
      var m := PairMember(counter, ams[i], bms[j]);
      assert m == row[j];
      assert f(m) <==> |memberParents(ams[i]) * memberParents(bms[j])| == common;
      FilterSnoc(row, j, f);
      CellOffset(|bms|, i, j);
      CellOffset(|bms|, i, j + 1);
      if |memberParents(ams[i]) * memberParents(bms[j])| == common {
        kept := kept + [m];
      }
      counter := counter + 1;
    }
    assert row[..|bms|] == row;
    CellNextRow(|bms|, i);
  }

  // ------------------------------------------------- composite pairs

  /** The members `CompositePair(a, b).init_members()` computes; `None` stands
      for the `StopIteration` of a child member without a parent member. With a
      parent that is neither side, the loop runs but appends nothing. */
  function InitMembersSpec(rel: Relations, a: Composite, b: Composite): Option<seq<Member>> {
    match rel.internalRelation(a, b)
    case Some((parent, child)) =>
      var r := ParentChildPairs(rel.memberIsParentTo, parent.members, child.members, parent == a);
      if parent == a || parent == b || r.None? then r else Some([])
    case None =>
      Some(SameLevelPairs(rel.memberParents, |rel.groupParents(a) * rel.groupParents(b)|, a.members, b.members))
  }

  /** `CompositePair.init_members` as the source runs it, with its loops and
      counters. It computes `InitMembersSpec`, so the lemmas about the members
      apply to its result: `InitMembersArePairs` on that function, and
      `ParentChildPairsShape` and `SameLevelKept` on the builders it calls. */
  method InitMembers(rel: Relations, a: Composite, b: Composite) returns (r: Option<seq<Member>>)
    ensures r == InitMembersSpec(rel, a, b)
  {
    var relation := rel.internalRelation(a, b);
    if relation.Some? {
      var (parent, child) := relation.value;
      r := ParentChildMembers(rel.memberIsParentTo, parent.members, child.members, parent == a);
      if parent != a && parent != b && r.Some? {
        r := Some([]);
      }
    } else {
      var common := rel.groupParents(a) * rel.groupParents(b);
      var ms := SameLevelMembers(rel.memberParents, |common|, a.members, b.members);
      r := Some(ms);
    }
  }

  /** The constructor `CompositePair(a, b)`. */
  method NewPair(rel: Relations, a: Composite, b: Composite) returns (p: Option<Composite>)
    ensures p.Some? <==> InitMembersSpec(rel, a, b).Some?
    ensures p.Some? ==> p.value == Pair(a, b, InitMembersSpec(rel, a, b).value)
  {
    var ms := InitMembers(rel, a, b);
    if ms.Some? {
      p := Some(Pair(a, b, ms.value));
    } else {
      p := None;
    }
  }

  /** `__len__` of both kinds of composite: the member count. */
  function Length(c: Composite): nat {
    |c.members|
  }

  /** A parent-child pair has one member per child member, and a same-level
      pair at most one per combination. */
  lemma PairLength(rel: Relations, a: Composite, b: Composite)
    requires InitMembersSpec(rel, a, b).Some?
    ensures var p := Pair(a, b, InitMembersSpec(rel, a, b).value);
      match rel.internalRelation(a, b)
      case Some((parent, child)) => Length(p) == if parent == a || parent == b then |child.members| else 0
      case None => Length(p) <= Cell(|b.members|, |a.members|, 0)
  {
    match rel.internalRelation(a, b)
    case Some((parent, child)) =>
      ParentChildPairsShape(rel.memberIsParentTo, parent.members, child.members, parent == a);
    case None =>
      SameLevelBound(rel.memberParents, |rel.groupParents(a) * rel.groupParents(b)|, a.members, b.members);
  }

  predicate AllPairs(ms: seq<Member>) {
    forall m | m in ms :: m.PairMember?
  }

  /** Every member a pair's construction yields is a pair member. */
  lemma InitMembersArePairs(rel: Relations, a: Composite, b: Composite)
    requires InitMembersSpec(rel, a, b).Some?
    ensures AllPairs(InitMembersSpec(rel, a, b).value)
  {
    match rel.internalRelation(a, b)
    case Some((parent, child)) =>
      ParentChildPairsShape(rel.memberIsParentTo, parent.members, child.members, parent == a);
      var r := ParentChildPairs(rel.memberIsParentTo, parent.members, child.members, parent == a);
      if r.Some? {
        assert forall m | m in r.value :: m.PairMember?;
      }
    case None =>
      var f := KeepFn(rel.memberParents, |rel.groupParents(a) * rel.groupParents(b)|);
      assert forall m | m in SameLevelPairs(rel.memberParents, |rel.groupParents(a) * rel.groupParents(b)|, a.members, b.members) :: f(m);
  }

  /** The `a` components (`left`) or `b` components of pair members, in order. */
  function Components(ms: seq<Member>, left: bool): (r: seq<Member>)
    requires AllPairs(ms)
    ensures |r| == |ms|
    ensures forall i | 0 <= i < |ms| :: r[i] == if left then ms[i].a else ms[i].b
  {
    seq(|ms|, i requires 0 <= i < |ms| => if left then ms[i].a else ms[i].b)
  }

  /** What `CompositePair.map_from(other)` returns. For an unrelated `other`
      it is computed on the new pair `CompositePair(self, other)`, whose `a`
      side is `self` itself. */
  function MapFromSpec(rel: Relations, self: Composite, other: Composite): Option<seq<Member>>
    requires self.Pair? && AllPairs(self.members)
  {
    if other == self.a then Some(Components(self.members, true))
    else if other == self.b then Some(Components(self.members, false))
    else
      match InitMembersSpec(rel, self, other)
      case None => None
      case Some(ms) =>
        InitMembersArePairs(rel, self, other);
        Some(Components(ms, other == self))
  }

  /** `CompositePair.map_from`. It computes `MapFromSpec`, about which
      `MapFromSides` and `MapFromOther` are stated. */
  method MapFrom(rel: Relations, self: Composite, other: Composite) returns (r: Option<seq<Member>>)
    requires self.Pair? && AllPairs(self.members)
    ensures r == MapFromSpec(rel, self, other)
  {
    if other == self.a {
      r := Some(Components(self.members, true));
    } else if other == self.b {
      r := Some(Components(self.members, false));
    } else {
      var p := NewPair(rel, self, other);
      if p.None? {
        r := None;
      } else {
        InitMembersArePairs(rel, self, other);
        r := Some(Components(p.value.members, p.value.a == other));
      }
    }
  }

  /** `map_from(a)` and `map_from(b)` list the `a` and the `b` component of
      each member, in member order, so both have `len(self)` entries. */
  lemma MapFromSides(rel: Relations, self: Composite)
    requires self.Pair? && AllPairs(self.members)
    ensures var ra := MapFromSpec(rel, self, self.a);
      ra.Some? && |ra.value| == Length(self) &&
      forall i | 0 <= i < |self.members| :: ra.value[i] == self.members[i].a
    ensures self.b != self.a ==> var rb := MapFromSpec(rel, self, self.b);
      rb.Some? && |rb.value| == Length(self) &&
      forall i | 0 <= i < |self.members| :: rb.value[i] == self.members[i].b
  {
  }

  /** For any other composite, `map_from` lists the members of `other` in the
      order of the members of the pair `CompositePair(self, other)`. */
  lemma MapFromOther(rel: Relations, self: Composite, other: Composite)
    requires self.Pair? && AllPairs(self.members)
    requires other != self.a && other != self.b && other != self
    ensures var r := MapFromSpec(rel, self, other);
      r.Some? <==> InitMembersSpec(rel, self, other).Some?
    ensures var r := MapFromSpec(rel, self, other);
      r.Some? ==> var ms := InitMembersSpec(rel, self, other).value;
        |r.value| == |ms| && forall i | 0 <= i < |ms| :: ms[i].PairMember? && r.value[i] == ms[i].b
  {
    if InitMembersSpec(rel, self, other).Some? {
      InitMembersArePairs(rel, self, other);
    }
  }
}
