/** sakkara/relation/group.py: a Group is one data-frame column seen as a
    discrete axis. It keeps the sets of parent, child and twin groups and a
    mapping table with one row per member and one index column per related
    group. */
module GroupRel {
  import opened Seqs

  /** Python's `str.__lt__`: lexicographic order on code points, a proper
      prefix sorting first. */
  predicate LexLess(s: string, t: string) {
    if |t| == 0 then false
    else if |s| == 0 then true
    else s[0] < t[0] || (s[0] == t[0] && LexLess(s[1..], t[1..]))
  }

  lemma {:induction false} LexLessIrreflexive(s: string)
    ensures !LexLess(s, s)
  {
    if |s| > 0 { LexLessIrreflexive(s[1..]); }
  }

  lemma {:induction false} LexLessTransitive(s: string, t: string, u: string)
    requires LexLess(s, t) && LexLess(t, u)
    ensures LexLess(s, u)
  {
    if |s| > 0 && s[0] == t[0] && t[0] == u[0] {
      LexLessTransitive(s[1..], t[1..], u[1..]);
    }
  }

  lemma {:induction false} LexLessTotal(s: string, t: string)
    requires s != t
    ensures LexLess(s, t) || LexLess(t, s)
  {
    if |s| > 0 && |t| > 0 && s[0] == t[0] {
      assert s == [s[0]] + s[1..] && t == [t[0]] + t[1..];
      LexLessTotal(s[1..], t[1..]);
    }
  }

  lemma {:induction false} LexLessAsymmetric(s: string, t: string)
    requires LexLess(s, t)
    ensures !LexLess(t, s)
  {
    if |s| > 0 && |t| > 0 && s[0] == t[0] {
      LexLessAsymmetric(s[1..], t[1..]);
    }
  }

  class Group {
    const name: string
    /** Names of the distinct column values, in order of first appearance. */
    const members: seq<string>
    var parents: set<Group>
    var children: set<Group>
    var twins: set<Group>
    /** Column label -> one index per member (the `mapping` data frame, whose
        row index is `members`). */
    var mapping: map<string, seq<int>>

    /** The group is its own twin, and every mapping column has one entry per member. */
    ghost predicate Valid()
      reads this
    {
      this in twins &&
      name in mapping &&
      forall k | k in mapping :: |mapping[k]| == |members|
    }

    constructor (name: string, members: seq<string>)
      ensures Valid()
      ensures this.name == name && this.members == members
      ensures parents == {} && children == {} && twins == {this}
      ensures mapping == map[name := Range(|members|)]
    {
      this.name := name;
      this.members := members;
      parents := {};
      children := {};
      mapping := map[name := Range(|members|)];
      new;
      twins := {this};
    }

    /** `__len__`: the number of rows of the mapping table. */
    function Length(): (n: nat)
      reads this
      requires Valid()
      ensures forall k | k in mapping :: |mapping[k]| == n
      ensures |mapping[name]| == n
    {
      |members|
    }

    method AddChild(child: Group)
      requires Valid()
      modifies this
      ensures Valid()
      ensures children == old(children) + {child}
      ensures parents == old(parents) && twins == old(twins) && mapping == old(mapping)
    {
      children := children + {child};
    }

    /** The parent is recorded first; the mapping column is only written when
        the index list has one entry per member (pandas raises ValueError
        otherwise, after the parent was already added). */
    method AddParent(parent: Group, parentMapping: seq<int>) returns (ok: bool)
      requires Valid()
      modifies this
      ensures Valid()
      ensures ok <==> |parentMapping| == |members|
      ensures parents == old(parents) + {parent}
      ensures mapping == if ok then old(mapping)[parent.name := parentMapping] else old(mapping)
      ensures children == old(children) && twins == old(twins)
    {
      parents := parents + {parent};
      ok := |parentMapping| == |members|;
      if ok {
        mapping := mapping[parent.name := parentMapping];
      }
    }

    method AddTwin(twin: Group)
      requires Valid()
      modifies this
      ensures Valid()
      ensures twins == old(twins) + {twin}
      ensures mapping == old(mapping)[twin.name := Range(|members|)]
      ensures parents == old(parents) && children == old(children)
    {
      twins := twins + {twin};
      mapping := mapping[twin.name := Range(|members|)];
    }

    /** `__lt__`: groups are ordered by their names. */
    predicate Less(other: Group) {
      LexLess(name, other.name)
    }
  }

  /** `__lt__` is a strict total order on groups with distinct names. */
  lemma GroupOrderStrictTotal(g: Group, h: Group, k: Group)
    ensures !g.Less(g)
    ensures g.Less(h) ==> !h.Less(g)
    ensures g.Less(h) && h.Less(k) ==> g.Less(k)
    ensures g.name != h.name ==> g.Less(h) || h.Less(g)
  {
    LexLessIrreflexive(g.name);
    if g.Less(h) { LexLessAsymmetric(g.name, h.name); }
    if g.Less(h) && h.Less(k) { LexLessTransitive(g.name, h.name, k.name); }
    if g.name != h.name { LexLessTotal(g.name, h.name); }
  }

  /** Repeating an insertion leaves a group unchanged: the add operations are set
      inserts and keyed column writes. */
  method AddTwiceIsIdempotent(g: Group, h: Group)
    requires g.Valid()
    modifies g
    ensures g.Valid()
    ensures g.twins == old(g.twins) + {h} && g.children == old(g.children) + {h}
  {
    g.AddTwin(h);
    var twins1, mapping1 := g.twins, g.mapping;
    g.AddTwin(h);
    assert g.twins == twins1 && g.mapping == mapping1;
    g.AddChild(h);
    var children1 := g.children;
    g.AddChild(h);
    assert g.children == children1;
  }
}
