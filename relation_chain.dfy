/** sakkara/relation.py: the single-parent chain version of the relation
    engine. Group columns are ordered from coarsest to finest by repeated
    functional-dependency tests, and every group gets the group built just
    before it as its parent. */
module ChainRelation {
  import opened Seqs
  import opened Tables

  /** A DataFrame cell: the source's string values, the integer `obs` column and
      integer ids, and the NaN a join produces for an unmatched key. */
  datatype Value = Text(s: string) | Int(i: int) | Missing

  type DataFrame = Table<Value>

  predicate HasColumns(t: DataFrame, groups: seq<string>) {
    forall c | c in groups :: c in t.cols
  }

  // ---------------------------------------------------------------- relations

  /** `df.groupby(g)[o].nunique().max()`. */
  function Count(t: DataFrame, g: string, o: string): nat
    requires t.Valid() && g in t.cols && o in t.cols
  {
    MaxNunique(t.cols[g], t.cols[o], t.height)
  }

  predicate IsParentColumn(t: DataFrame, g: string, o: string) {
    t.Valid() && g in t.cols && o in t.cols && 1 == Count(t, g, o)
  }

  predicate IsChildColumn(t: DataFrame, g: string, o: string) {
    t.Valid() && g in t.cols && o in t.cols && 1 < Count(t, g, o)
  }

  datatype Relations = Relations(group: string, parents: seq<string>, children: seq<string>)

  /** `get_relations`: the first column, then the other columns it has a single
      value per group for (its parents) and those it has several values per
      group for (its children), each in argument order. */
  function GetRelations(t: DataFrame, groups: seq<string>): (r: Relations)
    requires t.Valid() && |groups| > 0 && HasColumns(t, groups)
    ensures r.group == groups[0]
    ensures forall o | o in r.parents :: o in groups[1..]
    ensures forall o | o in r.children :: o in groups[1..]
    ensures |r.parents| < |groups| && |r.children| < |groups|
  {
    var g := groups[0];
    Relations(g, Filter(groups[1..], o => IsParentColumn(t, g, o)), Filter(groups[1..], o => IsChildColumn(t, g, o)))
  }

  /** The parents are exactly the other columns the first column determines;
      on a table with rows the children are exactly the other columns it does
      not determine. An empty table has neither. */
  lemma GetRelationsSpec(t: DataFrame, groups: seq<string>)
    requires t.Valid() && |groups| > 0 && HasColumns(t, groups)
    ensures forall o | o in groups[1..] ::
      o in GetRelations(t, groups).parents <==> Determines(t.cols[groups[0]], t.cols[o])
    ensures forall o | o in groups[1..] ::
      o in GetRelations(t, groups).children <==> t.height > 0 && !Determines(t.cols[groups[0]], t.cols[o])
    ensures t.height == 0 ==> GetRelations(t, groups).parents == [] && GetRelations(t, groups).children == []
  {
    var g := groups[0];
    var other := groups[1..];
    assert forall o | o in other :: o in groups;
    forall o | o in other
      ensures IsParentColumn(t, g, o) <==> Determines(t.cols[g], t.cols[o])
      ensures IsChildColumn(t, g, o) <==> t.height > 0 && !Determines(t.cols[g], t.cols[o])
    {
      MaxNuniqueOneIffDetermines(t.cols[g], t.cols[o]);
    }
  }

  /** On a table with rows the parents and children together are a permutation
      of the other columns; with distinct columns neither list repeats one. */
  lemma GetRelationsPartition(t: DataFrame, groups: seq<string>)
    requires t.Valid() && |groups| > 0 && HasColumns(t, groups)
    ensures t.height > 0 ==>
      multiset(GetRelations(t, groups).parents) + multiset(GetRelations(t, groups).children) == multiset(groups[1..])
    ensures Distinct(groups) ==>
      Distinct(GetRelations(t, groups).parents) && Distinct(GetRelations(t, groups).children)
  {
    var g := groups[0];
    var other := groups[1..];
    assert forall o | o in other :: o in groups;
    if t.height > 0 {
      forall o | o in other ensures IsChildColumn(t, g, o) == !IsParentColumn(t, g, o) {
        MaxNuniqueOneIffDetermines(t.cols[g], t.cols[o]);
      }
      FilterPartition(other, o => IsParentColumn(t, g, o), o => IsChildColumn(t, g, o));
    }
    if Distinct(groups) {
      TailMembers(groups);
      FilterDistinct(other, o => IsParentColumn(t, g, o));
      FilterDistinct(other, o => IsChildColumn(t, g, o));
    }
  }

  /** `trace_hierarchical_order`: the parents of the first column, ordered
      recursively, then the column, then its children, ordered recursively. */
  function Trace(t: DataFrame, groups: seq<string>): (r: seq<string>)
    requires t.Valid() && |groups| > 0 && HasColumns(t, groups)
    ensures groups[0] in r
    ensures forall x | x in r :: x in groups
    decreases |groups|
  {
    var rel := GetRelations(t, groups);
    assert forall x | x in groups[1..] :: x in groups;
    var left := if 0 < |rel.parents| then Trace(t, rel.parents) else [];
    var right := if 0 < |rel.children| then Trace(t, rel.children) else [];
    left + [rel.group] + right
  }

  lemma ConsTail<T>(s: seq<T>)
    requires |s| > 0
    ensures multiset([s[0]] + s[1..]) == multiset(s)
  {
    assert [s[0]] + s[1..] == s;
  }

  lemma Splice<T>(l: seq<T>, g: T, r: seq<T>, p: seq<T>, c: seq<T>, rest: seq<T>)
    requires multiset(l) == multiset(p) && multiset(r) == multiset(c)
    requires multiset(p) + multiset(c) == multiset(rest)
    ensures multiset(l + [g] + r) == multiset([g] + rest)
  {
  }

  /** On a table with rows the order is a permutation of the argument columns. */
  lemma {:induction false} TracePermutation(t: DataFrame, groups: seq<string>)
    requires t.Valid() && |groups| > 0 && HasColumns(t, groups) && t.height > 0
    ensures multiset(Trace(t, groups)) == multiset(groups)
    decreases |groups|
  {
    var rel := GetRelations(t, groups);
    GetRelationsPartition(t, groups);
    var left := if 0 < |rel.parents| then Trace(t, rel.parents) else [];
    var right := if 0 < |rel.children| then Trace(t, rel.children) else [];
    assert Trace(t, groups) == left + [groups[0]] + right;
    if 0 < |rel.parents| { TracePermutation(t, rel.parents); }
    if 0 < |rel.children| { TracePermutation(t, rel.children); }
    Splice(left, groups[0], right, rel.parents, rel.children, groups[1..]);
    ConsTail(groups);
  }

  /** On an empty table no column is related to the first one, so only the first
      column is returned. */
  lemma TraceEmptyTable(t: DataFrame, groups: seq<string>)
    requires t.Valid() && |groups| > 0 && HasColumns(t, groups) && t.height == 0
    ensures Trace(t, groups) == [groups[0]]
  {
    GetRelationsSpec(t, groups);
  }

  lemma TailMembers<T>(s: seq<T>)
    requires Distinct(s) && |s| > 0
    ensures s[0] !in s[1..] && Distinct(s[1..])
  {
    forall x | x in s[1..] ensures x != s[0] {
      var k :| 0 <= k < |s| - 1 && s[1..][k] == x;
      assert s[k + 1] == x;
    }
  }

  /** With distinct argument columns the order has no repetitions, the other
      columns the first column determines (its ancestors) precede it and the
      columns it does not determine follow it. */
  lemma {:induction false} TraceSplit(t: DataFrame, groups: seq<string>)
    requires t.Valid() && |groups| > 0 && HasColumns(t, groups) && Distinct(groups)
    ensures Distinct(Trace(t, groups))
    ensures forall x | x in groups[1..] && x in Trace(t, groups) ::
      FirstIndex(Trace(t, groups), x) < FirstIndex(Trace(t, groups), groups[0])
      <==> Determines(t.cols[groups[0]], t.cols[x])
    decreases |groups|
  {
    var rel := GetRelations(t, groups);
    GetRelationsSpec(t, groups);
    GetRelationsPartition(t, groups);
    TailMembers(groups);
    var g := groups[0];
    var left := if 0 < |rel.parents| then Trace(t, rel.parents) else [];
    var right := if 0 < |rel.children| then Trace(t, rel.children) else [];
    var r := left + [g] + right;
    assert Trace(t, groups) == r;
    if 0 < |rel.parents| { TraceSplit(t, rel.parents); }
    if 0 < |rel.children| { TraceSplit(t, rel.children); }
    assert forall x | x in left :: x in rel.parents;
    assert forall x | x in right :: x in rel.children;
    ConcatAround(left, g, right);
    forall x | x in groups[1..] && x in r
      ensures FirstIndex(r, x) < FirstIndex(r, g) <==> Determines(t.cols[g], t.cols[x])
    {
      assert x != g;
      assert x in left || x in right;
      if x in left {
        assert x in rel.parents;
      } else {
        assert x in rel.children;
      }
    }
  }

  /** Columns `c[0], ..., c[n-1]` form a nested chain from coarsest to finest:
      column `c[j]` determines column `c[i]` exactly when `i <= j`. */
  ghost predicate IsChain(t: DataFrame, c: seq<string>) {
    t.Valid() && |c| > 0 && Distinct(c) && HasColumns(t, c) &&
    forall i, j | 0 <= i < |c| && 0 <= j < |c| :: Determines(t.cols[c[j]], t.cols[c[i]]) <==> i <= j
  }

  /** The chain stated with the source's counting test: `c[j]` has one value of
      `c[i]` per group when `i <= j` and several when `i > j`. */
  ghost predicate CountChain(t: DataFrame, c: seq<string>) {
    t.Valid() && |c| > 0 && Distinct(c) && HasColumns(t, c) &&
    forall i, j | 0 <= i < |c| && 0 <= j < |c| ::
      (IsParentColumn(t, c[j], c[i]) <==> i <= j) && (IsChildColumn(t, c[j], c[i]) <==> j < i)
  }

  lemma ChainCounts(t: DataFrame, c: seq<string>)
    requires IsChain(t, c)
    ensures CountChain(t, c)
  {
    assert Determines(t.cols[c[0]], t.cols[c[0]]);
    forall i, j | 0 <= i < |c| && 0 <= j < |c|
      ensures (IsParentColumn(t, c[j], c[i]) <==> i <= j) && (IsChildColumn(t, c[j], c[i]) <==> j < i)
    {
      MaxNuniqueOneIffDetermines(t.cols[c[j]], t.cols[c[i]]);
    }
  }

  lemma ChainPrefix(t: DataFrame, c: seq<string>, k: nat)
    requires CountChain(t, c) && 0 < k <= |c|
    ensures CountChain(t, c[..k])
  {
    var c' := c[..k];
    forall i, j | 0 <= i < k && 0 <= j < k
      ensures (IsParentColumn(t, c'[j], c'[i]) <==> i <= j) && (IsChildColumn(t, c'[j], c'[i]) <==> j < i)
    {
      assert c'[i] == c[i] && c'[j] == c[j];
    }
  }

  lemma ChainSuffix(t: DataFrame, c: seq<string>, k: nat)
    requires CountChain(t, c) && k < |c|
    ensures CountChain(t, c[k..])
  {
    var c' := c[k..];
    forall i, j | 0 <= i < |c'| && 0 <= j < |c'|
      ensures (IsParentColumn(t, c'[j], c'[i]) <==> i <= j) && (IsChildColumn(t, c'[j], c'[i]) <==> j < i)
    {
      assert c'[i] == c[i + k] && c'[j] == c[j + k];
    }
    assert forall x | x in c' :: x in c;
  }

  /** The first column of a listing of a chain splits it: its parents are the
      coarser chain columns and its children the finer ones. */
  lemma ChainRelations(t: DataFrame, c: seq<string>, p: seq<string>)
    requires CountChain(t, c)
    requires Distinct(p) && (forall x | x in p :: x in c) && (forall x | x in c :: x in p)
    ensures |p| > 0 && HasColumns(t, p) && p[0] in c
    ensures forall x :: x in GetRelations(t, p).parents <==> x in c[..FirstIndex(c, p[0])]
    ensures forall x :: x in GetRelations(t, p).children <==> x in c[FirstIndex(c, p[0]) + 1..]
  {
    assert c[0] in p;
    TailMembers(p);
    var k := FirstIndex(c, p[0]);
    forall x ensures x in GetRelations(t, p).parents <==> x in c[..k] {
      ChainParent(t, c, p, x);
    }
    forall x ensures x in GetRelations(t, p).children <==> x in c[k + 1..] {
      ChainChild(t, c, p, x);
    }
  }

  lemma ChainParent(t: DataFrame, c: seq<string>, p: seq<string>, x: string)
    requires CountChain(t, c) && |p| > 0 && HasColumns(t, p) && p[0] in c
    requires (forall x | x in p :: x in c) && (forall x | x in c :: x in p) && p[0] !in p[1..]
    ensures x in GetRelations(t, p).parents <==> x in c[..FirstIndex(c, p[0])]
  {
    var k := FirstIndex(c, p[0]);
    var rel := GetRelations(t, p);
    if x in rel.parents {
      var i := FirstIndex(c, x);
      assert IsParentColumn(t, c[k], c[i]);
      assert c[..k][i] == x;
    }
    if x in c[..k] {
      var i :| 0 <= i < k && c[..k][i] == x;
      assert c[i] == x && IsParentColumn(t, c[k], c[i]);
      OtherMember(c, p, k, i);
    }
  }

  lemma ChainChild(t: DataFrame, c: seq<string>, p: seq<string>, x: string)
    requires CountChain(t, c) && |p| > 0 && HasColumns(t, p) && p[0] in c
    requires (forall x | x in p :: x in c) && (forall x | x in c :: x in p) && p[0] !in p[1..]
    ensures x in GetRelations(t, p).children <==> x in c[FirstIndex(c, p[0]) + 1..]
  {
    var k := FirstIndex(c, p[0]);
    var rel := GetRelations(t, p);
    if x in rel.children {
      var i := FirstIndex(c, x);
      assert IsChildColumn(t, c[k], c[i]);
      assert c[k + 1..][i - k - 1] == x;
    }
    if x in c[k + 1..] {
      var i :| 0 <= i < |c| - k - 1 && c[k + 1..][i] == x;
      assert c[i + k + 1] == x && IsChildColumn(t, c[k], c[i + k + 1]);
      OtherMember(c, p, k, i + k + 1);
    }
  }

  /** A chain column other than the listing's first is among the other columns. */
  lemma OtherMember<T>(c: seq<T>, p: seq<T>, k: nat, i: nat)
    requires Distinct(c) && k < |c| && i < |c| && i != k && |p| > 0 && p[0] == c[k]
    requires forall x | x in c :: x in p
    ensures c[i] in p[1..]
  {
    assert c[i] in p;
    var m :| 0 <= m < |p| && p[m] == c[i];
    assert p[1..][m - 1] == c[i];
  }

  lemma Reassemble<T>(c: seq<T>, k: nat, left: seq<T>, right: seq<T>)
    requires k < |c| && left == c[..k] && right == c[k + 1..]
    ensures left + [c[k]] + right == c
  {
  }

  lemma NoMembers<T>(s: seq<T>)
    ensures (forall x :: x !in s) ==> s == []
  {
    if |s| > 0 { assert s[0] in s; }
  }

  lemma {:induction false} TraceCountChain(t: DataFrame, c: seq<string>, p: seq<string>)
    requires CountChain(t, c)
    requires Distinct(p) && (forall x | x in p :: x in c) && (forall x | x in c :: x in p)
    ensures HasColumns(t, p) && |p| > 0
    ensures Trace(t, p) == c
    decreases |p|
  {
    ChainRelations(t, c, p);
    GetRelationsPartition(t, p);
    var k := FirstIndex(c, p[0]);
    var rel := GetRelations(t, p);
    var left := if 0 < |rel.parents| then Trace(t, rel.parents) else [];
    var right := if 0 < |rel.children| then Trace(t, rel.children) else [];
    assert Trace(t, p) == left + [p[0]] + right;
    if 0 < k {
      ChainPrefix(t, c, k);
      TraceCountChain(t, c[..k], rel.parents);
      assert left == c[..k];
    } else {
      NoMembers(rel.parents);
      assert left == [] == c[..k];
    }
    if k + 1 < |c| {
      ChainSuffix(t, c, k + 1);
      TraceCountChain(t, c[k + 1..], rel.children);
      assert right == c[k + 1..];
    } else {
      NoMembers(rel.children);
      assert right == [] == c[k + 1..];
    }
    Reassemble(c, k, left, right);
  }

  /** However the columns of a nested chain are listed, they come out coarsest
      first; tests/test_relation.py:28-31 asserts this of the same routine in
      the hierlinreg version, for every permutation. */
  lemma TraceChain(t: DataFrame, c: seq<string>, p: seq<string>)
    requires IsChain(t, c)
    requires Distinct(p) && (forall x | x in p :: x in c) && (forall x | x in c :: x in p)
    ensures HasColumns(t, p) && |p| > 0
    ensures Trace(t, p) == c
  {
    ChainCounts(t, c);
    TraceCountChain(t, c, p);
  }

  // ---------------------------------------------------------------- groups

  datatype GroupMember = GroupMember(name: Value, id: nat, parent: Option<GroupMember>)

  datatype Group = Group(name: string, members: seq<GroupMember>, parent: Option<Group>)

  datatype GroupSet = GroupSet(groups: map<string, Group>)

  /** `{m.name: m for m in members}[v]`: a later member with the same name
      overwrites an earlier one; None stands for the KeyError. */
  function MemberNamed(ms: seq<GroupMember>, v: Value): (r: Option<GroupMember>)
    ensures r.Some? ==> r.value in ms && r.value.name == v
    ensures r.None? ==> forall m | m in ms :: m.name != v
  {
    if |ms| == 0 then None
    else if ms[|ms| - 1].name == v then Some(ms[|ms| - 1])
    else
      assert forall m | m in ms :: m in ms[..|ms| - 1] || m == ms[|ms| - 1];
      MemberNamed(ms[..|ms| - 1], v)
  }

  /** Members of the first group: the distinct values in order of first
      appearance, numbered from 0, without parents. */
  function RootMembers(t: DataFrame, col: string): (ms: seq<GroupMember>)
    requires t.Valid() && col in t.cols
    ensures |ms| == |Unique(t.cols[col])|
  {
    var u := Unique(t.cols[col]);
    seq(|u|, i requires 0 <= i < |u| => GroupMember(u[i], i, None))
  }

  /** Members of a later group: each distinct value, numbered from 0 in order of
      first appearance, with the parent member named by the parent column's
      value in that value's first row (`groupby(col)[parent].first()`). */
  function ChildMembers(t: DataFrame, col: string, parent: Group): (ms: seq<GroupMember>)
    requires t.Valid() && col in t.cols && parent.name in t.cols
    ensures |ms| == |Unique(t.cols[col])|
  {
    var u := Unique(t.cols[col]);
    seq(|u|, i requires 0 <= i < |u| =>
      GroupMember(u[i], i, MemberNamed(parent.members, t.cols[parent.name][FirstIndex(t.cols[col], u[i])])))
  }

  /** The first `n` groups `init_groupset` builds for the ordered columns: the
      first is a root group and every later one has the group built just
      before it as its parent. */
  function GroupsUpTo(t: DataFrame, ordered: seq<string>, n: nat): (gs: seq<Group>)
    requires t.Valid() && HasColumns(t, ordered) && 0 < n <= |ordered|
    ensures |gs| == n
    ensures forall k | 0 <= k < n :: gs[k].name == ordered[k]
  {
    assert ordered[0] in ordered && ordered[n - 1] in ordered;
    if n == 1 then [Group(ordered[0], RootMembers(t, ordered[0]), None)]
    else
      var prev := GroupsUpTo(t, ordered, n - 1);
      var p := prev[n - 2];
      prev + [Group(ordered[n - 1], ChildMembers(t, ordered[n - 1], p), Some(p))]
  }

  /** The groups `init_groupset` builds for the ordered columns. */
  function BuildChain(t: DataFrame, ordered: seq<string>): (gs: seq<Group>)
    requires t.Valid() && |ordered| > 0 && HasColumns(t, ordered)
    ensures |gs| == |ordered|
    ensures forall k | 0 <= k < |gs| :: gs[k].name == ordered[k]
  {
    GroupsUpTo(t, ordered, |ordered|)
  }

  /** The first group of the chain has no parent and one member per distinct
      value of its column; every later group's parent is the group built just
      before it, and its members are looked up in that group. */
  lemma {:induction false} ChainLinks(t: DataFrame, ordered: seq<string>, n: nat)
    requires t.Valid() && HasColumns(t, ordered) && 0 < n <= |ordered|
    ensures var gs := GroupsUpTo(t, ordered, n);
      gs[0].parent == None && gs[0].members == RootMembers(t, ordered[0])
    ensures var gs := GroupsUpTo(t, ordered, n);
      forall k | 0 < k < n ::
        gs[k].parent == Some(gs[k - 1]) && gs[k].members == ChildMembers(t, ordered[k], gs[k - 1])
  {
    if n > 1 {
      ChainLinks(t, ordered, n - 1);
      LinksExtend(t, ordered, n, GroupsUpTo(t, ordered, n - 1), GroupsUpTo(t, ordered, n));
    }
  }

  /** The step of ChainLinks over any prefix chain and its extension. */
  lemma LinksExtend(t: DataFrame, ordered: seq<string>, n: nat, prev: seq<Group>, gs: seq<Group>)
    requires t.Valid() && HasColumns(t, ordered) && 1 < n <= |ordered| && |prev| == n - 1
    requires forall k | 0 <= k < n - 1 :: prev[k].name == ordered[k]
    requires prev[0].parent == None && prev[0].members == RootMembers(t, ordered[0])
    requires forall k | 0 < k < n - 1 ::
      prev[k].parent == Some(prev[k - 1]) && prev[k].members == ChildMembers(t, ordered[k], prev[k - 1])
    requires gs == prev + [Group(ordered[n - 1], ChildMembers(t, ordered[n - 1], prev[n - 2]), Some(prev[n - 2]))]
    ensures gs[0].parent == None && gs[0].members == RootMembers(t, ordered[0])
    ensures forall k | 0 < k < n ::
      gs[k].parent == Some(gs[k - 1]) && gs[k].members == ChildMembers(t, ordered[k], gs[k - 1])
  {
    forall k | 0 < k < n
      ensures gs[k].parent == Some(gs[k - 1]) && gs[k].members == ChildMembers(t, ordered[k], gs[k - 1])
    {
      if k < n - 1 {
        assert gs[k] == prev[k] && gs[k - 1] == prev[k - 1];
      }
    }
  }

  /** Every member of a group carries its position as id, and every member of a
      group with a parent points at the parent's member at that member's id. */
  ghost predicate WellFormed(g: Group)
    decreases g
  {
    (forall i | 0 <= i < |g.members| :: g.members[i].id == i) &&
    match g.parent
    case None => true
    case Some(p) =>
      WellFormed(p) &&
      forall i | 0 <= i < |g.members| ::
        g.members[i].parent.Some? &&
        g.members[i].parent.value.id < |p.members| &&
        p.members[g.members[i].parent.value.id] == g.members[i].parent.value
  }

  /** The members are the column's distinct values in order of first
      appearance, each carrying its position as id. */
  ghost predicate Enumerates(t: DataFrame, col: string, ms: seq<GroupMember>)
    requires t.Valid() && col in t.cols
  {
    |ms| == |Unique(t.cols[col])| &&
    forall i | 0 <= i < |ms| :: ms[i].name == Unique(t.cols[col])[i] && ms[i].id == i
  }

  /** Every member has a parent member of `p`, found at the parent's id, and
      named by the parent column in the first row of the member's value. */
  ghost predicate PointsInto(t: DataFrame, col: string, ms: seq<GroupMember>, p: Group)
    requires t.Valid() && col in t.cols && p.name in t.cols
  {
    forall i | 0 <= i < |ms| ::
      ms[i].name in t.cols[col] &&
      ms[i].parent.Some? &&
      ms[i].parent.value.id < |p.members| &&
      p.members[ms[i].parent.value.id] == ms[i].parent.value &&
      ms[i].parent.value.name == t.cols[p.name][FirstIndex(t.cols[col], ms[i].name)]
  }

  lemma RootMembersEnumerate(t: DataFrame, col: string)
    requires t.Valid() && col in t.cols
    ensures Enumerates(t, col, RootMembers(t, col))
  {
  }

  lemma ChildMembersLinked(t: DataFrame, col: string, p: Group)
    requires t.Valid() && col in t.cols && p.name in t.cols
    requires Enumerates(t, p.name, p.members)
    ensures Enumerates(t, col, ChildMembers(t, col, p))
    ensures PointsInto(t, col, ChildMembers(t, col, p), p)
  {
    var ms := ChildMembers(t, col, p);
    var u := Unique(t.cols[col]);
    var pu := Unique(t.cols[p.name]);
    forall i | 0 <= i < |ms|
      ensures ms[i].name in t.cols[col]
      ensures ms[i].parent.Some? && ms[i].parent.value.id < |p.members|
      ensures p.members[ms[i].parent.value.id] == ms[i].parent.value
      ensures ms[i].parent.value.name == t.cols[p.name][FirstIndex(t.cols[col], ms[i].name)]
    {
      assert ms[i].name == u[i];
      var pv := t.cols[p.name][FirstIndex(t.cols[col], u[i])];
      assert pv in pu;
      var j :| 0 <= j < |pu| && pu[j] == pv;
      assert p.members[j].name == pv;
      var m := MemberNamed(p.members, pv);
      assert m.Some?;
      var j' :| 0 <= j' < |p.members| && p.members[j'] == m.value;
      assert m.value.id == j';
    }
  }

  /** Member ids follow first appearance, no parent lookup fails, and each
      member's parent is the parent-group member named by the parent column in
      the first row of that member's value. */
  lemma {:induction false} BuildChainMembers(t: DataFrame, ordered: seq<string>, n: nat)
    requires t.Valid() && HasColumns(t, ordered) && 0 < n <= |ordered|
    ensures forall k | 0 <= k < n ::
      WellFormed(GroupsUpTo(t, ordered, n)[k]) && Enumerates(t, ordered[k], GroupsUpTo(t, ordered, n)[k].members)
    ensures forall k | 0 < k < n ::
      PointsInto(t, ordered[k], GroupsUpTo(t, ordered, n)[k].members, GroupsUpTo(t, ordered, n)[k - 1])
  {
    if n > 1 {
      BuildChainMembers(t, ordered, n - 1);
      ChainExtends(t, ordered, n, GroupsUpTo(t, ordered, n - 1), GroupsUpTo(t, ordered, n));
    } else {
      RootMembersEnumerate(t, ordered[0]);
    }
  }

  /** The step of `BuildChainMembers`: appending the next column's group, whose
      parent is the last group of a linked chain, keeps the chain linked. */
  lemma ChainExtends(t: DataFrame, ordered: seq<string>, n: nat, prev: seq<Group>, gs: seq<Group>)
    requires t.Valid() && HasColumns(t, ordered) && 1 < n <= |ordered|
    requires |prev| == n - 1 && forall k | 0 <= k < n - 1 :: prev[k].name == ordered[k]
    requires forall k | 0 <= k < n - 1 :: WellFormed(prev[k]) && Enumerates(t, ordered[k], prev[k].members)
    requires forall k | 0 < k < n - 1 :: PointsInto(t, ordered[k], prev[k].members, prev[k - 1])
    requires gs == prev + [Group(ordered[n - 1], ChildMembers(t, ordered[n - 1], prev[n - 2]), Some(prev[n - 2]))]
    ensures forall k | 0 <= k < n :: WellFormed(gs[k]) && Enumerates(t, ordered[k], gs[k].members)
    ensures forall k | 0 < k < n :: PointsInto(t, ordered[k], gs[k].members, gs[k - 1])
  {
    var p := prev[n - 2];
    var last := gs[n - 1];
    assert ordered[n - 2] in ordered && ordered[n - 1] in ordered;
    assert Enumerates(t, ordered[n - 2], p.members);
    ChildMembersLinked(t, ordered[n - 1], p);
    assert WellFormed(last);
    forall k | 0 <= k < n - 1
      ensures WellFormed(gs[k]) && Enumerates(t, ordered[k], gs[k].members)
    {
      assert gs[k] == prev[k];
    }
    forall k | 0 < k < n - 1
      ensures PointsInto(t, ordered[k], gs[k].members, gs[k - 1])
    {
      assert gs[k] == prev[k] && gs[k - 1] == prev[k - 1];
    }
  }

  /** The last group: one member per coefficient column, numbered in iteration
      order, without parent. */
  function ColumnGroup(coeffCols: seq<string>): (g: Group)
    ensures g.name == "column" && g.parent == None && |g.members| == |coeffCols|
    ensures forall i | 0 <= i < |coeffCols| :: g.members[i] == GroupMember(Text(coeffCols[i]), i, None)
  {
    Group("column", seq(|coeffCols|, i requires 0 <= i < |coeffCols| => GroupMember(Text(coeffCols[i]), i, None)), None)
  }

  /** `{g.name: g for g in groups}`: a later group overwrites an earlier one of the same name. */
  function ByName(gs: seq<Group>): (m: map<string, Group>)
    ensures forall g | g in gs :: g.name in m
    ensures forall n | n in m :: exists k :: 0 <= k < |gs| && gs[k].name == n && m[n] == gs[k]
    ensures |gs| > 0 ==> m[gs[|gs| - 1].name] == gs[|gs| - 1]
  {
    if |gs| == 0 then map[]
    else
      var init := gs[..|gs| - 1];
      var m' := ByName(init);
      assert forall g | g in gs :: g in init || g == gs[|gs| - 1];
      m'[gs[|gs| - 1].name := gs[|gs| - 1]]
  }

  lemma ByNameDistinct(gs: seq<Group>, k: nat)
    requires k < |gs|
    requires forall i, j | 0 <= i < j < |gs| :: gs[i].name != gs[j].name
    ensures ByName(gs)[gs[k].name] == gs[k]
  {
    var m := ByName(gs);
    var k' :| 0 <= k' < |gs| && gs[k'].name == gs[k].name && m[gs[k].name] == gs[k'];
    assert k' == k;
  }

  /** The input table with the `obs` column (row numbers) and the constant
      `global` column added. */
  function Extended(df: DataFrame): (t: DataFrame)
    requires df.Valid()
    ensures t.Valid() && t.height == df.height
    ensures "obs" in t.cols && "global" in t.cols
    ensures forall c | c in df.cols :: c in t.cols
    ensures forall i | 0 <= i < t.height :: t.cols["obs"][i] == Int(i) && t.cols["global"][i] == Text("global")
  {
    var withObs := WithColumn(df, "obs", seq(df.height, i => Int(i)));
    WithColumn(withObs, "global", seq(df.height, i => Text("global")))
  }

  /** The loop of `init_groupset`: the first ordered column becomes a root group
      and every later column a group whose parent is the last group built. */
  method BuildGroups(t: DataFrame, ordered: seq<string>) returns (groups: seq<Group>)
    requires t.Valid() && |ordered| > 0 && HasColumns(t, ordered)
    ensures groups == BuildChain(t, ordered)
  {
    assert ordered[0] in ordered;
    groups := [Group(ordered[0], RootMembers(t, ordered[0]), None)];
    var k := 1;
    while k < |ordered|
      invariant 1 <= k <= |ordered|
      invariant groups == GroupsUpTo(t, ordered, k)
    {
      var parent := groups[k - 1];
      var col := ordered[k];
      assert col in ordered;
      groups := groups + [Group(col, ChildMembers(t, col, parent), Some(parent))];
      k := k + 1;
    }
  }

  /** The group set `init_groupset` returns: the chain built over the traced
      order of the extended table's group columns, then the `column` group,
      which wins any clash of names because it comes last. */
  function InitGroupsetSpec(df: DataFrame, colOrder: seq<string>, coeffCols: seq<string>): (m: map<string, Group>)
    requires df.Valid()
    requires Distinct(colOrder) && "obs" in colOrder && "global" in colOrder
    requires forall c | c in colOrder :: c in df.cols || c == "obs" || c == "global"
    ensures "column" in m && m["column"] == ColumnGroup(coeffCols)
  {
    ExtendedHasColumns(df, colOrder);
    ChainGroupset(Extended(df), colOrder, coeffCols)
  }

  /** The group set over a table that holds the group columns. */
  function ChainGroupset(t: DataFrame, groups: seq<string>, coeffCols: seq<string>): (m: map<string, Group>)
    requires t.Valid() && |groups| > 0 && HasColumns(t, groups)
    ensures "column" in m && m["column"] == ColumnGroup(coeffCols)
  {
    var ordered := Trace(t, groups);
    assert forall x | x in ordered :: x in groups;
    ByName(BuildChain(t, ordered) + [ColumnGroup(coeffCols)])
  }

  /** `init_groupset`. `colOrder` is the iteration order of
      `group_cols | {'global', 'obs'}` and `coeffCols` that of `coeff_cols`;
      the source leaves both to the set implementation. */
  method InitGroupset(df: DataFrame, colOrder: seq<string>, coeffCols: seq<string>) returns (gs: GroupSet)
    requires df.Valid()
    requires Distinct(colOrder) && "obs" in colOrder && "global" in colOrder
    requires forall c | c in colOrder :: c in df.cols || c == "obs" || c == "global"
    ensures gs.groups == InitGroupsetSpec(df, colOrder, coeffCols)
  {
    ExtendedHasColumns(df, colOrder);
    gs := BuildGroupset(Extended(df), colOrder, coeffCols);
  }

  /** The body of `init_groupset` once the table is extended: trace the order,
      build the chain, append the `column` group and index by name. */
  method BuildGroupset(t: DataFrame, groups: seq<string>, coeffCols: seq<string>) returns (gs: GroupSet)
    requires t.Valid() && |groups| > 0 && HasColumns(t, groups)
    ensures gs.groups == ChainGroupset(t, groups, coeffCols)
  {
    var ordered := Trace(t, groups);
    assert forall x | x in ordered :: x in groups;
    var chain := BuildGroups(t, ordered);
    gs := GroupSet(ByName(chain + [ColumnGroup(coeffCols)]));
  }

  /** On a table with rows, every group column becomes a group named after it
      whose members are the column's distinct values in order of first
      appearance, numbered from 0, with well-formed parent links. */
  lemma InitGroupsetGroups(df: DataFrame, colOrder: seq<string>, coeffCols: seq<string>, c: string)
    requires df.Valid() && df.height > 0
    requires Distinct(colOrder) && "obs" in colOrder && "global" in colOrder
    requires forall c | c in colOrder :: c in df.cols || c == "obs" || c == "global"
    requires "column" !in colOrder
    requires c in colOrder
    ensures c in Extended(df).cols
    ensures var m := InitGroupsetSpec(df, colOrder, coeffCols);
      c in m && m[c].name == c && Enumerates(Extended(df), c, m[c].members) && WellFormed(m[c])
  {
    ExtendedHasColumns(df, colOrder);
    var t := Extended(df);
    assert InitGroupsetSpec(df, colOrder, coeffCols) == ChainGroupset(t, colOrder, coeffCols);
    TracedChainGroup(t, colOrder, coeffCols, c);
  }

  /** The extended table holds every column of the order. */
  lemma ExtendedHasColumns(df: DataFrame, colOrder: seq<string>)
    requires df.Valid()
    requires forall c | c in colOrder :: c in df.cols || c == "obs" || c == "global"
    ensures HasColumns(Extended(df), colOrder)
  {
  }

  /** The chain built over the traced order of distinct columns holds a
      well-formed group for each of them. */
  lemma TracedChainGroup(t: DataFrame, groups: seq<string>, coeffCols: seq<string>, c: string)
    requires t.Valid() && |groups| > 0 && HasColumns(t, groups) && t.height > 0
    requires Distinct(groups) && "column" !in groups && c in groups
    ensures var m := ChainGroupset(t, groups, coeffCols);
      c in m && m[c].name == c && Enumerates(t, c, m[c].members) && WellFormed(m[c])
  {
    var ordered := Trace(t, groups);
    TraceCovers(t, groups, c);
    ChainGroupNamed(t, ordered, groups, coeffCols, c);
  }

  /** On a table with rows the traced order of distinct columns is distinct
      and holds every column. */
  lemma TraceCovers(t: DataFrame, groups: seq<string>, c: string)
    requires t.Valid() && |groups| > 0 && HasColumns(t, groups) && t.height > 0
    requires Distinct(groups) && c in groups
    ensures c in Trace(t, groups) && Distinct(Trace(t, groups))
  {
    TracePermutation(t, groups);
    TraceSplit(t, groups);
    assert c in multiset(Trace(t, groups));
  }

  lemma ChainGroupNamed(t: DataFrame, ordered: seq<string>, colOrder: seq<string>, coeffCols: seq<string>, c: string)
    requires t.Valid() && |ordered| > 0 && HasColumns(t, ordered) && Distinct(ordered)
    requires forall x | x in ordered :: x in colOrder
    requires "column" !in colOrder && c in ordered
    ensures var m := ByName(BuildChain(t, ordered) + [ColumnGroup(coeffCols)]);
      c in m && m[c].name == c && Enumerates(t, c, m[c].members) && WellFormed(m[c])
  {
    var k :| 0 <= k < |ordered| && ordered[k] == c;
    var chain := BuildChain(t, ordered);
    BuildChainMembers(t, ordered, |ordered|);
    var all := chain + [ColumnGroup(coeffCols)];
    ChainNamesDistinct(ordered, colOrder, chain, all, ColumnGroup(coeffCols));
    ByNameDistinct(all, k);
    assert all[k] == chain[k];
  }

  lemma ChainNamesDistinct(ordered: seq<string>, colOrder: seq<string>, chain: seq<Group>, all: seq<Group>, last: Group)
    requires Distinct(ordered) && |chain| == |ordered|
    requires forall k | 0 <= k < |chain| :: chain[k].name == ordered[k]
    requires forall x | x in ordered :: x in colOrder
    requires last.name !in colOrder && all == chain + [last]
    ensures forall i, j | 0 <= i < j < |all| :: all[i].name != all[j].name
  {
    forall i, j | 0 <= i < j < |all| ensures all[i].name != all[j].name {
      assert all[i] == chain[i] && ordered[i] in ordered;
    }
  }

  // ---------------------------------------------------------------- frames

  datatype Column = Column(header: string, values: seq<Value>)

  /** A DataFrame as an ordered list of labelled columns of a common height. */
  datatype Frame = Frame(columns: seq<Column>, height: nat)
  {
    predicate Valid() {
      forall c | c in columns :: |c.values| == height
    }

    function Labels(): (ls: seq<string>)
      ensures |ls| == |columns|
      ensures forall i | 0 <= i < |columns| :: ls[i] == columns[i].header
    {
      seq(|columns|, i requires 0 <= i < |columns| => columns[i].header)
    }
  }

  /** The first column with the given header. */
  function Lookup(f: Frame, header: string): (r: Option<seq<Value>>)
    ensures r.Some? <==> header in f.Labels()
    ensures r.Some? ==> Column(header, r.value) in f.columns
    decreases |f.columns|
  {
    if |f.columns| == 0 then None
    else if f.columns[0].header == header then Some(f.columns[0].values)
    else
      var rest := Lookup(Frame(f.columns[1..], f.height), header);
      assert f.Labels() == [f.columns[0].header] + Frame(f.columns[1..], f.height).Labels();
      rest
  }

  /** `df.loc[:, header] = values`: replaces the column of that header, or appends one. */
  function SetColumn(f: Frame, header: string, values: seq<Value>): (r: Frame)
    requires f.Valid() && |values| == f.height
    ensures r.Valid() && r.height == f.height
    ensures Lookup(r, header) == Some(values)
    ensures forall l | l != header :: Lookup(r, l) == Lookup(f, l)
    ensures forall l | l in r.Labels() :: l in f.Labels() || l == header
  {
    if header in f.Labels() then
      var r := Frame(seq(|f.columns|, i requires 0 <= i < |f.columns| =>
        if f.columns[i].header == header then Column(header, values) else f.columns[i]), f.height);
      SetColumnReplace(f, header, values, r);
      r
    else
      var r := Frame(f.columns + [Column(header, values)], f.height);
      SetColumnAppend(f, header, values, r);
      AppendLabels(f, Column(header, values), r);
      r
  }

  lemma AppendLabels(f: Frame, c: Column, r: Frame)
    requires r.columns == f.columns + [c]
    ensures r.Labels() == f.Labels() + [c.header]
  {
    assert forall i | 0 <= i < |f.columns| :: r.Labels()[i] == f.Labels()[i];
    assert r.Labels()[|f.columns|] == c.header;
  }

  lemma {:induction false} SetColumnReplace(f: Frame, header: string, values: seq<Value>, r: Frame)
    requires |r.columns| == |f.columns| && r.height == f.height
    requires forall i | 0 <= i < |f.columns| ::
      r.columns[i] == if f.columns[i].header == header then Column(header, values) else f.columns[i]
    ensures header in f.Labels() ==> Lookup(r, header) == Some(values)
    ensures forall l | l != header :: Lookup(r, l) == Lookup(f, l)
    ensures r.Labels() == f.Labels()
    decreases |f.columns|
  {
    assert forall i | 0 <= i < |f.columns| :: r.Labels()[i] == f.Labels()[i];
    if |f.columns| > 0 {
      var f' := Frame(f.columns[1..], f.height);
      var r' := Frame(r.columns[1..], r.height);
      SetColumnReplace(f', header, values, r');
      assert f.Labels() == [f.columns[0].header] + f'.Labels();
    }
  }

  lemma {:induction false} SetColumnAppend(f: Frame, header: string, values: seq<Value>, r: Frame)
    requires r.columns == f.columns + [Column(header, values)] && r.height == f.height
    ensures header !in f.Labels() ==> Lookup(r, header) == Some(values)
    ensures forall l | l != header :: Lookup(r, l) == Lookup(f, l)
    decreases |f.columns|
  {
    if |f.columns| > 0 {
      var f' := Frame(f.columns[1..], f.height);
      var r' := Frame(r.columns[1..], r.height);
      assert r'.columns == f'.columns + [Column(header, values)];
      SetColumnAppend(f', header, values, r');
      assert f.Labels() == [f.columns[0].header] + f'.Labels();
    } else {
      assert r.columns[0] == Column(header, values);
    }
  }

  /** The cell of the right-hand frame that a left-join key selects; the right
      frame's row index is its position. */
  function RowAt(values: seq<Value>, key: Value): Value {
    match key
    case Int(k) => if 0 <= k < |values| then values[k] else Missing
    case _ => Missing
  }

  /** The label a right-hand column gets in a join: suffixed when it clashes
      with a left label. */
  function JoinLabel(h: string, labels: seq<string>, rsuffix: string): string {
    if h in labels then h + rsuffix else h
  }

  /** `left.join(right, on=key, rsuffix=...)`: every left row gets the right row
      whose position is the row's key; right labels that clash with left labels
      get the suffix. */
  function Join(left: Frame, key: string, right: Frame, rsuffix: string): (r: Frame)
    requires left.Valid() && Lookup(left, key).Some? && |Lookup(left, key).value| == left.height
    ensures r.Valid() && r.height == left.height
    ensures |r.columns| == |left.columns| + |right.columns|
    ensures r.columns[..|left.columns|] == left.columns
    ensures forall l | l in left.Labels() :: Lookup(r, l) == Lookup(left, l)
    ensures forall l | l in right.Labels() :: l in r.Labels()
    ensures forall c | 0 <= c < |right.columns| ::
      r.columns[|left.columns|..][c].header == JoinLabel(right.columns[c].header, left.Labels(), rsuffix)
    ensures forall c, i | 0 <= c < |right.columns| && 0 <= i < left.height ::
      r.columns[|left.columns|..][c].values[i] == RowAt(right.columns[c].values, Lookup(left, key).value[i])
  {
    var keys := Lookup(left, key).value;
    var added := JoinedColumns(right.columns, keys, left.Labels(), rsuffix);
    var r := Frame(left.columns + added, left.height);
    assert r.columns[|left.columns|..] == added;
    JoinKeepsLeft(left, added, r);
    JoinKeepsRightLabels(left, right, added, r, rsuffix);
    r
  }

  /** The right-hand columns as the join adds them: relabelled, and each row
      taken from the right row its key selects. */
  function JoinedColumns(cs: seq<Column>, keys: seq<Value>, labels: seq<string>, rsuffix: string): (added: seq<Column>)
    ensures |added| == |cs|
    ensures forall c | 0 <= c < |cs| :: added[c].header == JoinLabel(cs[c].header, labels, rsuffix)
    ensures forall c | 0 <= c < |cs| :: |added[c].values| == |keys|
    ensures forall c, i | 0 <= c < |cs| && 0 <= i < |keys| :: added[c].values[i] == RowAt(cs[c].values, keys[i])
  {
    seq(|cs|, c requires 0 <= c < |cs| => JoinedColumn(cs[c], keys, labels, rsuffix))
  }

  function JoinedColumn(rc: Column, keys: seq<Value>, labels: seq<string>, rsuffix: string): (c: Column)
    ensures c.header == JoinLabel(rc.header, labels, rsuffix) && |c.values| == |keys|
    ensures forall i | 0 <= i < |keys| :: c.values[i] == RowAt(rc.values, keys[i])
  {
    Column(JoinLabel(rc.header, labels, rsuffix), seq(|keys|, i requires 0 <= i < |keys| => RowAt(rc.values, keys[i])))
  }

  lemma JoinKeepsRightLabels(left: Frame, right: Frame, added: seq<Column>, r: Frame, rsuffix: string)
    requires r.columns == left.columns + added && |added| == |right.columns|
    requires forall c | 0 <= c < |added| :: added[c].header == JoinLabel(right.columns[c].header, left.Labels(), rsuffix)
    ensures forall l | l in right.Labels() :: l in r.Labels()
  {
    forall l | l in right.Labels() ensures l in r.Labels() {
      var c :| 0 <= c < |right.columns| && right.Labels()[c] == l;
      if l in left.Labels() {
        var j :| 0 <= j < |left.columns| && left.Labels()[j] == l;
        assert r.columns[j] == left.columns[j];
        assert r.Labels()[j] == l;
      } else {
        assert r.columns[|left.columns| + c] == added[c];
        assert r.Labels()[|left.columns| + c] == l;
      }
    }
  }

  lemma {:induction false} JoinKeepsLeft(left: Frame, added: seq<Column>, r: Frame)
    requires r.columns == left.columns + added && r.height == left.height
    ensures forall l | l in left.Labels() :: Lookup(r, l) == Lookup(left, l)
    ensures r.columns[..|left.columns|] == left.columns
    decreases |left.columns|
  {
    if |left.columns| > 0 {
      var l' := Frame(left.columns[1..], left.height);
      var r' := Frame(r.columns[1..], r.height);
      assert r'.columns == l'.columns + added;
      JoinKeepsLeft(l', added, r');
      assert left.Labels() == [left.columns[0].header] + l'.Labels();
    }
  }

  /** Every group on the path to the root that has a parent gives all its
      members a parent member (the source dereferences `m.parent`). */
  ghost predicate Linked(g: Group)
    decreases g
  {
    match g.parent
    case None => true
    case Some(p) => Linked(p) && forall m | m in g.members :: m.parent.Some?
  }

  function Names(ms: seq<GroupMember>): (r: seq<Value>)
    ensures |r| == |ms| && forall i | 0 <= i < |ms| :: r[i] == ms[i].name
  {
    seq(|ms|, i requires 0 <= i < |ms| => ms[i].name)
  }

  function Ids(ms: seq<GroupMember>): (r: seq<Value>)
    ensures |r| == |ms| && forall i | 0 <= i < |ms| :: r[i] == Int(ms[i].id)
  {
    seq(|ms|, i requires 0 <= i < |ms| => Int(ms[i].id))
  }

  function ParentNames(ms: seq<GroupMember>): (r: seq<Value>)
    requires forall m | m in ms :: m.parent.Some?
    ensures |r| == |ms| && forall i | 0 <= i < |ms| :: r[i] == ms[i].parent.value.name
  {
    seq(|ms|, i requires 0 <= i < |ms| => ms[i].parent.value.name)
  }

  function ParentIds(ms: seq<GroupMember>): (r: seq<Value>)
    requires forall m | m in ms :: m.parent.Some?
    ensures |r| == |ms| && forall i | 0 <= i < |ms| :: r[i] == Int(ms[i].parent.value.id)
  {
    seq(|ms|, i requires 0 <= i < |ms| => Int(ms[i].parent.value.id))
  }

  /** The parent columns `get_members` adds replace the group's own id column. */
  predicate IdColumnOverwritten(g: Group, addParents: bool) {
    g.parent.Some? && addParents &&
    (g.name + "_id" == g.parent.value.name || g.name + "_id" == g.parent.value.name + "_id")
  }

  /** `Group.get_members`: the members' names and ids and, when asked for and
      the group has a parent, their parents' names and ids. */
  function GetMembers(g: Group, addParents: bool): (f: Frame)
    requires g.parent.Some? && addParents ==> forall m | m in g.members :: m.parent.Some?
    ensures f.Valid() && f.height == |g.members|
    ensures !IdColumnOverwritten(g, addParents) ==> Lookup(f, g.name + "_id") == Some(Ids(g.members))
    ensures g.parent.Some? && addParents ==>
      Lookup(f, g.parent.value.name) == Some(ParentNames(g.members)) &&
      Lookup(f, g.parent.value.name + "_id") == Some(ParentIds(g.members))
    ensures g.parent.None? || !addParents ==>
      Lookup(f, g.name) == Some(Names(g.members)) && f.Labels() == [g.name, g.name + "_id"]
  {
    var base := Frame([Column(g.name, Names(g.members)), Column(g.name + "_id", Ids(g.members))], |g.members|);
    assert base.Labels() == [g.name, g.name + "_id"];
    assert Lookup(base, g.name + "_id") == Some(Ids(g.members)) by {
      assert g.name != g.name + "_id" by { assert |g.name| != |g.name + "_id"|; }
    }
    if g.parent.Some? && addParents then
      var p := g.parent.value;
      var withName := SetColumn(base, p.name, ParentNames(g.members));
      assert p.name != p.name + "_id" by { assert |p.name| != |p.name + "_id"|; }
      SetColumn(withName, p.name + "_id", ParentIds(g.members))
    else base
  }

  /** `Group.get_parent_mapping`: empty for a root group; otherwise the group's
      members with their parents' names and ids, joined on the parent id with
      the parent's own mapping until the requested ancestor is reached. */
  function ParentMapping(g: Group, parentName: string): (f: Frame)
    requires Linked(g)
    ensures f.Valid()
    ensures g.parent.None? ==> f.columns == []
    ensures g.parent.Some? ==>
      f.height == |g.members| &&
      Lookup(f, g.parent.value.name) == Some(ParentNames(g.members)) &&
      Lookup(f, g.parent.value.name + "_id") == Some(ParentIds(g.members))
    decreases g
  {
    match g.parent
    case None => Frame([], 0)
    case Some(p) =>
      var df := GetMembers(g, true);
      if p.name != parentName then
        var pm := ParentMapping(p, parentName);
        assert p.name in df.Labels() && p.name + "_id" in df.Labels();
        Join(df, p.name + "_id", pm, "_l")
      else df
  }

  /** `Group.is_parent`: whether the requested name labels a column of the parent mapping. */
  predicate IsParent(g: Group, other: string)
    requires Linked(g)
  {
    other in ParentMapping(g, other).Labels()
  }

  /** `other` names a group on the path from `g`'s parent to the root. */
  ghost predicate AncestorNamed(g: Group, other: string)
    decreases g
  {
    match g.parent
    case None => false
    case Some(p) => p.name == other || AncestorNamed(p, other)
  }

  /** A root group is parent of nothing; every ancestor's name is recognised. */
  lemma {:induction false} IsParentAncestors(g: Group, other: string)
    requires Linked(g)
    ensures g.parent.None? ==> !IsParent(g, other)
    ensures AncestorNamed(g, other) ==> IsParent(g, other)
    decreases g
  {
    match g.parent
    case None =>
    case Some(p) =>
      if AncestorNamed(g, other) {
        var df := GetMembers(g, true);
        if p.name != other {
          IsParentAncestors(p, other);
        } else {
          assert Lookup(df, other).Some?;
        }
      }
  }

  /** The member that `m`, a member of `g`, reaches by following parent links
      up to the group named `a`; none when a link is missing or no ancestor
      group has that name. */
  ghost function AncestorMember(g: Group, m: GroupMember, a: string): Option<GroupMember>
    decreases g
  {
    match g.parent
    case None => None
    case Some(p) =>
      match m.parent
      case None => None
      case Some(pm) => if p.name == a then Some(pm) else AncestorMember(p, pm, a)
  }

  /** `x` is `l` or the name the `_l` suffix gives `l` in a join. */
  predicate Clashes(x: string, l: string) {
    x == l || x == l + "_l"
  }

  /** On the way from `g` up to the group named `a`, neither `a` nor `a_id`
      is a label of an intermediate members frame or its `_l` rename, so the
      joins neither shadow nor rename the ancestor's columns. */
  ghost predicate JoinClear(g: Group, a: string)
    decreases g
  {
    match g.parent
    case None => true
    case Some(p) =>
      p.name == a || (FreeOf(a, g, p) && FreeOf(a + "_id", g, p) && JoinClear(p, a))
  }

  /** `x` clashes with no label of the members frame of `g` under parent `p`. */
  predicate FreeOf(x: string, g: Group, p: Group) {
    !Clashes(x, g.name) && !Clashes(x, g.name + "_id") && !Clashes(x, p.name) && !Clashes(x, p.name + "_id")
  }

  /** Up to the group named `a`, every group name is free of `_` and differs
      from `a`; column names such as `a`, `obs` or `global` are of this kind. */
  ghost predicate PlainChain(g: Group, a: string)
    decreases g
  {
    match g.parent
    case None => true
    case Some(p) =>
      '_' !in g.name && '_' !in p.name && '_' !in a && g.name != a &&
      (p.name == a || PlainChain(p, a))
  }

  /** Plain names never clash with the labels or renames the joins introduce. */
  lemma {:induction false} PlainChainJoinClear(g: Group, a: string)
    requires PlainChain(g, a)
    ensures JoinClear(g, a)
    decreases g
  {
    match g.parent
    case None =>
    case Some(p) =>
      if p.name != a {
        PlainFreeOf(a, g.name, p.name);
        PlainChainJoinClear(p, a);
        assert FreeOf(a, g, p) && FreeOf(a + "_id", g, p);
      }
  }

  lemma PlainFreeOf(a: string, x: string, y: string)
    requires '_' !in a && '_' !in x && '_' !in y && a != x && a != y
    ensures forall l | l == x || l == x + "_id" || l == y || l == y + "_id" :: !Clashes(a, l) && !Clashes(a + "_id", l)
  {
    forall l | l == x || l == x + "_id" || l == y || l == y + "_id"
      ensures !Clashes(a, l) && !Clashes(a + "_id", l)
    {
      HasUnderscore(l, "_l");
      HasUnderscore(x, "_id");
      HasUnderscore(y, "_id");
      HasUnderscore(a, "_id");
      EndsDiffer(a, l);
      if a + "_id" == x + "_id" { Cancel(a, x, "_id"); }
      if a + "_id" == y + "_id" { Cancel(a, y, "_id"); }
    }
  }

  lemma HasUnderscore(x: string, suffix: string)
    requires |suffix| > 0 && suffix[0] == '_'
    ensures '_' in x + suffix
  {
    assert (x + suffix)[|x|] == '_';
  }

  lemma EndsDiffer(a: string, l: string)
    ensures a + "_id" != l + "_l"
  {
    var u, v := a + "_id", l + "_l";
    assert u[|u| - 1] == 'd' && v[|v| - 1] == 'l';
  }

  lemma Cancel(a: string, x: string, suffix: string)
    requires a + suffix == x + suffix
    ensures a == x
  {
    assert |a| == |x|;
    assert a == (a + suffix)[..|a|] && x == (x + suffix)[..|x|];
  }

  /** Row i of `f` holds, under the labels `a` and `a_id`, the name and id of
      the ancestor in group `a` of member i of `g`. */
  ghost predicate CarriesAncestor(f: Frame, g: Group, a: string) {
    f.height == |g.members| &&
    Lookup(f, a).Some? && |Lookup(f, a).value| == |g.members| &&
    Lookup(f, a + "_id").Some? && |Lookup(f, a + "_id").value| == |g.members| &&
    (forall i | 0 <= i < |g.members| ::
      AncestorMember(g, g.members[i], a).Some? &&
      Lookup(f, a).value[i] == AncestorValue(AncestorMember(g, g.members[i], a).value, false)) &&
    (forall i | 0 <= i < |g.members| ::
      AncestorMember(g, g.members[i], a).Some? &&
      Lookup(f, a + "_id").value[i] == AncestorValue(AncestorMember(g, g.members[i], a).value, true))
  }

  /** The parent mapping holds, for every member, the name and id of its
      ancestor in the requested group, after the joins up the chain. These
      are the columns hierlinreg/linreg.py:28 reads. */
  lemma {:induction false} ParentMappingAncestor(g: Group, a: string)
    requires WellFormed(g) && AncestorNamed(g, a) && JoinClear(g, a)
    ensures Linked(g)
    ensures CarriesAncestor(ParentMapping(g, a), g, a)
    decreases g
  {
    WellFormedLinked(g);
    var p := g.parent.value;
    var f := ParentMapping(g, a);
    if p.name != a {
      var pm := ParentMapping(p, a);
      ParentMappingAncestor(p, a);
      assert f == Join(GetMembers(g, true), p.name + "_id", pm, "_l");
      JoinAncestor(g, a, pm);
    } else {
      assert f == GetMembers(g, true);
      ParentColumnsCarry(g, a);
    }
  }

  /** Asked for its own parent, a group's mapping is its members frame, whose
      parent columns hold the parent members' names and ids. */
  lemma ParentColumnsCarry(g: Group, a: string)
    requires WellFormed(g) && g.parent.Some? && g.parent.value.name == a
    ensures forall m | m in g.members :: m.parent.Some?
    ensures CarriesAncestor(GetMembers(g, true), g, a)
  {
    forall m | m in g.members ensures m.parent.Some? {
      var i :| 0 <= i < |g.members| && g.members[i] == m;
    }
    var df := GetMembers(g, true);
    var names := Lookup(df, a).value;
    var ids := Lookup(df, a + "_id").value;
    assert names == ParentNames(g.members) && ids == ParentIds(g.members);
    assert df.height == |g.members| && |names| == |g.members| && |ids| == |g.members|;
    forall i | 0 <= i < |g.members|
      ensures AncestorMember(g, g.members[i], a).Some?
      ensures names[i] == AncestorValue(AncestorMember(g, g.members[i], a).value, false)
      ensures ids[i] == AncestorValue(AncestorMember(g, g.members[i], a).value, true)
    {
      assert AncestorMember(g, g.members[i], a) == g.members[i].parent;
    }
  }

  /** One join up the chain: a mapping of the parent that carries the
      ancestor columns makes the group's joined mapping carry them. */
  lemma JoinAncestor(g: Group, a: string, pm: Frame)
    requires WellFormed(g) && g.parent.Some? && g.parent.value.name != a
    requires FreeOf(a, g, g.parent.value) && FreeOf(a + "_id", g, g.parent.value)
    requires CarriesAncestor(pm, g.parent.value, a)
    ensures forall m | m in g.members :: m.parent.Some?
    ensures CarriesAncestor(Join(GetMembers(g, true), g.parent.value.name + "_id", pm, "_l"), g, a)
  {
    var p := g.parent.value;
    forall m | m in g.members ensures m.parent.Some? {
      var i :| 0 <= i < |g.members| && g.members[i] == m;
    }
    var f := Join(GetMembers(g, true), p.name + "_id", pm, "_l");
    JoinByParentId(g, pm, a);
    JoinByParentId(g, pm, a + "_id");
    AncestorRows(g, a, pm, f);
  }

  /** A right column of the join the members frame's labels leave alone holds,
      at row i, the right row at member i's parent id. */
  lemma JoinByParentId(g: Group, pm: Frame, x: string)
    requires g.parent.Some? && forall m | m in g.members :: m.parent.Some?
    requires FreeOf(x, g, g.parent.value) && Lookup(pm, x).Some?
    ensures var f := Join(GetMembers(g, true), g.parent.value.name + "_id", pm, "_l");
      Lookup(f, x).Some? && |Lookup(f, x).value| == |g.members| &&
      forall i | 0 <= i < |g.members| ::
        Lookup(f, x).value[i] == RowAt(Lookup(pm, x).value, Int(g.members[i].parent.value.id))
  {
    var p := g.parent.value;
    var df := GetMembers(g, true);
    assert Lookup(df, p.name + "_id").value == ParentIds(g.members);
    GetMembersLabels(g);
    JoinRightColumn(df, p.name + "_id", pm, "_l", x);
  }

  /** The ancestor in group `a` of a member is that of its parent member,
      which the parent's mapping holds at the parent's id. */
  lemma AncestorRows(g: Group, a: string, pm: Frame, f: Frame)
    requires WellFormed(g) && g.parent.Some? && g.parent.value.name != a
    requires CarriesAncestor(pm, g.parent.value, a)
    requires f.height == |g.members|
    requires forall m | m in g.members :: m.parent.Some?
    requires Lookup(f, a).Some? && |Lookup(f, a).value| == |g.members|
    requires Lookup(f, a + "_id").Some? && |Lookup(f, a + "_id").value| == |g.members|
    requires forall i | 0 <= i < |g.members| ::
      Lookup(f, a).value[i] == RowAt(Lookup(pm, a).value, Int(g.members[i].parent.value.id))
    requires forall i | 0 <= i < |g.members| ::
      Lookup(f, a + "_id").value[i] == RowAt(Lookup(pm, a + "_id").value, Int(g.members[i].parent.value.id))
    ensures CarriesAncestor(f, g, a)
  {
    var p := g.parent.value;
    AncestorValues(g, a, Lookup(pm, a).value, Lookup(f, a).value, false);
    AncestorValues(g, a, Lookup(pm, a + "_id").value, Lookup(f, a + "_id").value, true);
  }

  /** The name, or with `ids` the id, of a member's ancestor in group `a`. */
  function AncestorValue(anc: GroupMember, ids: bool): Value {
    if ids then Int(anc.id) else anc.name
  }

  /** Rows taken at the parent ids from the parent's ancestor column are the
      group's ancestor column. */
  lemma AncestorValues(g: Group, a: string, pv: seq<Value>, fv: seq<Value>, ids: bool)
    requires WellFormed(g) && g.parent.Some? && g.parent.value.name != a
    requires |pv| == |g.parent.value.members| && |fv| == |g.members|
    requires forall j | 0 <= j < |pv| ::
      AncestorMember(g.parent.value, g.parent.value.members[j], a).Some? &&
      pv[j] == AncestorValue(AncestorMember(g.parent.value, g.parent.value.members[j], a).value, ids)
    requires forall m | m in g.members :: m.parent.Some?
    requires forall i | 0 <= i < |fv| :: fv[i] == RowAt(pv, Int(g.members[i].parent.value.id))
    ensures forall i | 0 <= i < |fv| ::
      AncestorMember(g, g.members[i], a).Some? && fv[i] == AncestorValue(AncestorMember(g, g.members[i], a).value, ids)
  {
    forall i | 0 <= i < |fv|
      ensures AncestorMember(g, g.members[i], a).Some?
      ensures fv[i] == AncestorValue(AncestorMember(g, g.members[i], a).value, ids)
    {
      AncestorOfParent(g, a, i);
    }
  }

  lemma AncestorOfParent(g: Group, a: string, i: nat)
    requires WellFormed(g) && g.parent.Some? && g.parent.value.name != a && i < |g.members|
    ensures g.members[i].parent.Some? && g.members[i].parent.value.id < |g.parent.value.members|
    ensures AncestorMember(g, g.members[i], a) ==
      AncestorMember(g.parent.value, g.parent.value.members[g.members[i].parent.value.id], a)
  {
  }

  lemma {:induction false} WellFormedLinked(g: Group)
    requires WellFormed(g)
    ensures Linked(g)
    decreases g
  {
    match g.parent
    case None =>
    case Some(p) =>
      WellFormedLinked(p);
      forall m | m in g.members ensures m.parent.Some? {
        var i :| 0 <= i < |g.members| && g.members[i] == m;
      }
  }

  lemma LookupSized(f: Frame, a: string)
    requires f.Valid() && Lookup(f, a).Some?
    ensures |Lookup(f, a).value| == f.height
  {
  }

  /** A right-hand column whose label the join neither shadows nor renames
      comes out under its own label, each row holding the right row its key
      selects. */
  lemma JoinRightColumn(left: Frame, key: string, right: Frame, rsuffix: string, a: string)
    requires left.Valid() && Lookup(left, key).Some? && |Lookup(left, key).value| == left.height
    requires Lookup(right, a).Some?
    requires a !in left.Labels() && forall l | l in left.Labels() :: l + rsuffix != a
    ensures var r := Join(left, key, right, rsuffix);
      Lookup(r, a).Some? && |Lookup(r, a).value| == left.height &&
      forall i | 0 <= i < left.height :: Lookup(r, a).value[i] == RowAt(Lookup(right, a).value, Lookup(left, key).value[i])
  {
    JoinColumnAt(left, right, Join(left, key, right, rsuffix), Lookup(left, key).value, rsuffix, a);
  }

  lemma JoinColumnAt(left: Frame, right: Frame, r: Frame, keys: seq<Value>, rsuffix: string, a: string)
    requires |keys| == left.height && r.Valid() && r.height == left.height
    requires |r.columns| == |left.columns| + |right.columns|
    requires r.columns[..|left.columns|] == left.columns
    requires forall c | 0 <= c < |right.columns| ::
      r.columns[|left.columns|..][c].header == JoinLabel(right.columns[c].header, left.Labels(), rsuffix)
    requires forall c, i | 0 <= c < |right.columns| && 0 <= i < left.height ::
      r.columns[|left.columns|..][c].values[i] == RowAt(right.columns[c].values, keys[i])
    requires Lookup(right, a).Some?
    requires a !in left.Labels() && forall l | l in left.Labels() :: l + rsuffix != a
    ensures Lookup(r, a).Some? && |Lookup(r, a).value| == left.height
    ensures forall i | 0 <= i < left.height :: Lookup(r, a).value[i] == RowAt(Lookup(right, a).value, keys[i])
  {
    var k := LookupFirstIndex(right, a);
    LookupAtFirst(right, a, k);
    var n := |left.columns|;
    forall j | 0 <= j < n + k ensures r.columns[j].header != a {
      if j < n {
        assert r.columns[j] == r.columns[..n][j] == left.columns[j];
        assert left.Labels()[j] == left.columns[j].header;
      } else {
        var h := right.columns[j - n].header;
        assert r.columns[j] == r.columns[n..][j - n];
        assert r.columns[j].header == JoinLabel(h, left.Labels(), rsuffix);
      }
    }
    var v := r.columns[n + k].values;
    var w := right.columns[k].values;
    assert r.columns[n + k] == r.columns[n..][k];
    LookupAtFirst(r, a, n + k);
    assert Lookup(r, a) == Some(v);
    assert Lookup(right, a) == Some(w);
    LookupSized(r, a);
    forall i | 0 <= i < left.height ensures v[i] == RowAt(w, keys[i]) {
    }
  }

  /** The position of the first column with a given label. */
  lemma {:induction false} LookupFirstIndex(f: Frame, a: string) returns (k: nat)
    requires Lookup(f, a).Some?
    ensures k < |f.columns| && f.columns[k].header == a
    ensures forall j | 0 <= j < k :: f.columns[j].header != a
    decreases |f.columns|
  {
    if f.columns[0].header == a {
      k := 0;
    } else {
      var f' := Frame(f.columns[1..], f.height);
      assert Lookup(f, a) == Lookup(f', a);
      var k' := LookupFirstIndex(f', a);
      FirstIndexStep(f.columns, a, k');
      k := k' + 1;
    }
  }

  lemma FirstIndexStep(cs: seq<Column>, a: string, k: nat)
    requires |cs| > 0 && cs[0].header != a
    requires k < |cs[1..]| && cs[1..][k].header == a
    requires forall j | 0 <= j < k :: cs[1..][j].header != a
    ensures k + 1 < |cs| && cs[k + 1].header == a
    ensures forall j | 0 <= j < k + 1 :: cs[j].header != a
  {
    forall j | 0 <= j < k + 1 ensures cs[j].header != a {
      if j > 0 {
        assert cs[j] == cs[1..][j - 1];
      }
    }
  }

  lemma {:induction false} LookupAtFirst(f: Frame, a: string, k: nat)
    requires k < |f.columns| && f.columns[k].header == a
    requires forall j | 0 <= j < k :: f.columns[j].header != a
    ensures Lookup(f, a) == Some(f.columns[k].values)
    decreases k
  {
    if k > 0 {
      var f' := Frame(f.columns[1..], f.height);
      FirstIndexTail(f.columns, a, k);
      LookupAtFirst(f', a, k - 1);
      assert f'.columns[k - 1] == f.columns[k];
      assert Lookup(f, a) == Lookup(f', a);
    }
  }

  lemma FirstIndexTail(cs: seq<Column>, a: string, k: nat)
    requires 0 < k < |cs| && cs[k].header == a
    requires forall j | 0 <= j < k :: cs[j].header != a
    ensures cs[0].header != a && cs[1..][k - 1].header == a
    ensures forall j | 0 <= j < k - 1 :: cs[1..][j].header != a
  {
    forall j | 0 <= j < k - 1 ensures cs[1..][j].header != a {
      assert cs[1..][j] == cs[j + 1];
    }
  }

  /** A group with a parent also answers `is_parent` for its own name, because
      its own name labels the first column of its mapping. */
  lemma IsParentOwnName(g: Group)
    requires Linked(g) && g.parent.Some?
    ensures IsParent(g, g.name)
  {
    var p := g.parent.value;
    var df := GetMembers(g, true);
    GetMembersOwnName(g);
    if p.name != g.name {
      var pm := ParentMapping(p, g.name);
      assert ParentMapping(g, g.name) == Join(df, p.name + "_id", pm, "_l");
    } else {
      assert ParentMapping(g, g.name) == df;
    }
  }

  /** The members frame of a group with a parent carries only the group's and
      the parent's name and id labels. */
  lemma GetMembersLabels(g: Group)
    requires g.parent.Some? && forall m | m in g.members :: m.parent.Some?
    ensures forall l | l in GetMembers(g, true).Labels() ::
      l == g.name || l == g.name + "_id" || l == g.parent.value.name || l == g.parent.value.name + "_id"
  {
    var p := g.parent.value;
    var base := Frame([Column(g.name, Names(g.members)), Column(g.name + "_id", Ids(g.members))], |g.members|);
    assert base.Labels() == [g.name, g.name + "_id"];
    var withName := SetColumn(base, p.name, ParentNames(g.members));
    var df := SetColumn(withName, p.name + "_id", ParentIds(g.members));
    assert GetMembers(g, true) == df;
  }

  /** The members frame of a group with a parent keeps the group's own name
      as a label. */
  lemma GetMembersOwnName(g: Group)
    requires g.parent.Some? && forall m | m in g.members :: m.parent.Some?
    ensures g.name in GetMembers(g, true).Labels()
  {
    var p := g.parent.value;
    var base := Frame([Column(g.name, Names(g.members)), Column(g.name + "_id", Ids(g.members))], |g.members|);
    assert Lookup(base, g.name).Some?;
    var withName := SetColumn(base, p.name, ParentNames(g.members));
    assert Lookup(withName, g.name).Some?;
    var df := SetColumn(withName, p.name + "_id", ParentIds(g.members));
    assert GetMembers(g, true) == df;
    assert Lookup(df, g.name).Some?;
  }

  /** `GroupSet.coords`: each group's member names, in member order. */
  function Coords(gs: GroupSet): (c: map<string, seq<Value>>)
    ensures forall n :: n in c <==> n in gs.groups
    ensures forall n | n in c :: |c[n]| == |gs.groups[n].members|
    ensures forall n, i | n in c && 0 <= i < |c[n]| :: c[n][i] == gs.groups[n].members[i].name
  {
    map n | n in gs.groups :: Names(gs.groups[n].members)
  }
}
