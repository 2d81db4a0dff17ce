/** sakkara/relation/nodepair.py with the atomic node of
    sakkara/relation/atomicnode.py: the node-pair version in which a pair's
    representation is a Representation object (reduced lazily, compared up to
    twins) that the pair caches in its `rep_nodes` field. Nodes are values; an
    atomic node is its id in a World snapshot, a pair holds its operands and
    the cached representation, if any. */
module NodePairs {
  import opened Seqs
  import opened Representations
  import opened AtomicNodes
  import Nodes

  // ---------------------------------------------------------------- representations as values

  /** A Representation object: its node set and whether a reduction is pending
      (`updated`). */
  datatype RepValue = RepValue(nodes: set<nat>, updated: bool)

  /** A node: an atomic node, or a pair with its cached `rep_nodes`. */
  datatype Node = Atom(id: nat) | Pair(a: Node, b: Node, repNodes: Option<RepValue>)

  /** The order `list(set)` walks a set in, fixed here as ascending ids. */
  function Listing(s: set<nat>): (l: seq<nat>)
    ensures Enumerates(l, s)
  {
    SortedSeqDistinct(s);
    SortedSeq(s)
  }

  /** `Representation.reduce` over the relations of a World snapshot. */
  function Reduce(w: World, s: set<nat>): (r: set<nat>)
    ensures r <= s && NoParentPairs(r, ParentRel(w))
  {
    var l := Listing(ParentFree(s, ParentRel(w)));
    ReducedSubsetNoParents(s, l, ParentRel(w), TwinRel(w));
    Reduced(s, l, ParentRel(w), TwinRel(w))
  }

  /** The node set a representation presents (`get_nodes`, `__iter__`): reduced
      first when a reduction is pending. */
  function NodesOf(w: World, r: RepValue): set<nat> {
    if r.updated then Reduce(w, r.nodes) else r.nodes
  }

  /** `len(representation)`. */
  function RepLen(w: World, r: RepValue): nat {
    |NodesOf(w, r)|
  }

  /** `Representation.__eq__`: equal node sets, or a non-empty symmetric
      difference in which every node has a twin. */
  predicate RepEq(w: World, r1: RepValue, r2: RepValue) {
    var mine, theirs := NodesOf(w, r1), NodesOf(w, r2);
    EqualsSpec(mine, theirs, Listing((mine - theirs) + (theirs - mine)), TwinRel(w))
  }

  /** `Representation.union`: a new, not yet reduced representation over both
      reduced node sets. */
  function RepUnion(w: World, r1: RepValue, r2: RepValue): (r: RepValue)
    ensures r.updated && r.nodes == NodesOf(w, r1) + NodesOf(w, r2)
  {
    RepValue(NodesOf(w, r1) + NodesOf(w, r2), true)
  }

  /** Representations with the same presented nodes compare equal. */
  lemma RepEqReflexive(w: World, r1: RepValue, r2: RepValue)
    requires NodesOf(w, r1) == NodesOf(w, r2)
    ensures RepEq(w, r1, r2)
  {
  }

  // ---------------------------------------------------------------- node queries

  function Size(n: Node): (k: nat)
    ensures k >= 1
  {
    match n
    case Atom(_) => 1
    case Pair(a, b, _) => 1 + Size(a) + Size(b)
  }

  /** `representation`: `{self}` for an atomic node; for a pair the cached
      value, or else the child operand's when the other is its parent, or else
      the union of both. */
  function Representation(w: World, n: Node): RepValue
    decreases Size(n), 1
  {
    match n
    case Atom(x) => RepValue({x}, true)
    case Pair(a, b, cached) =>
      if cached.Some? then cached.value
      else if IsParentTo(w, b, a) then Representation(w, a)
      else if IsParentTo(w, a, b) then Representation(w, b)
      else RepUnion(w, Representation(w, a), Representation(w, b))
  }

  /** The reduced nodes of a node's representation. */
  function RepNodes(w: World, n: Node): set<nat>
    decreases Size(n), 2
  {
    NodesOf(w, Representation(w, n))
  }

  /** `get_parents`: an atomic node's parents; for a pair, the parents of its
      representation groups, plus those groups when there are several. */
  function Parents(w: World, n: Node): (r: set<nat>)
    ensures n.Pair? ==> forall g, p | g in RepNodes(w, n) && p in w(g).parents :: p in r
    ensures n.Pair? && |RepNodes(w, n)| > 1 ==> RepNodes(w, n) <= r
    decreases Size(n), 3
  {
    match n
    case Atom(y) => w(y).parents
    case Pair(_, _, _) =>
      var rep := RepNodes(w, n);
      var inherited := set g, p | g in rep && p in w(g).parents :: p;
      if |rep| > 1 then inherited + rep else inherited
  }

  /** `get_twins`: an atomic node's twins; for a pair, the union of the twins
      of its representation groups. */
  function Twins(w: World, n: Node): (r: set<nat>)
    ensures n.Pair? ==> forall t :: t in r <==> exists g | g in RepNodes(w, n) :: t in w(g).twins
    decreases Size(n), 3
  {
    match n
    case Atom(y) => w(y).twins
    case Pair(_, _, _) =>
      var rep := RepNodes(w, n);
      set g, t | g in rep && t in w(g).twins :: t
  }

  /** `is_parent_to`. */
  predicate IsParentTo(w: World, n: Node, other: Node)
    decreases Size(n) + Size(other), 4
  {
    match n
    case Atom(x) => x in Parents(w, other)
    case Pair(a, b, _) => PairIsParentTo(w, a, b, RepEq(w, Representation(w, n), Representation(w, other)), other)
  }

  /** `NodePair.is_parent_to`, given whether the representations are equal: a
      nested pair delegates to its child operand; for unrelated operands both
      must be parents of `other`, or one a parent and the other a twin. */
  predicate PairIsParentTo(w: World, a: Node, b: Node, sameRep: bool, other: Node)
    decreases Size(a) + Size(b) + Size(other), 5
  {
    if sameRep then false
    else if IsParentTo(w, a, b) then IsParentTo(w, b, other)
    else if IsParentTo(w, b, a) then IsParentTo(w, a, other)
    else
      var aParent, bParent := IsParentTo(w, a, other), IsParentTo(w, b, other);
      var aTwin, bTwin := IsTwinTo(w, a, other), IsTwinTo(w, b, other);
      (aParent && bTwin) || (bParent && aTwin) || (aParent && bParent)
  }

  /** `is_twin_to`. */
  predicate IsTwinTo(w: World, n: Node, other: Node)
    decreases Size(n) + Size(other), 4
  {
    match n
    case Atom(x) => x in Twins(w, other)
    case Pair(a, b, _) =>
      if RepNodes(w, n) == RepNodes(w, other) then false
      else IsTwinTo(w, a, other) && IsTwinTo(w, b, other)
  }

  /** An atomic node's queries are the membership tests of the AtomicNode class. */
  lemma AtomQueries(w: World, x: nat, o: nat)
    ensures IsParentTo(w, Atom(x), Atom(o)) <==> ParentRel(w)(x, o)
    ensures IsTwinTo(w, Atom(x), Atom(o)) <==> TwinRel(w)(x, o)
    ensures Representation(w, Atom(x)) == RepValue({x}, true)
    ensures RepNodes(w, Atom(x)) == if x in w(x).parents then {} else {x}
  {
    var l := Listing(ParentFree({x}, ParentRel(w)));
    ReduceSingleton(x, l, ParentRel(w), TwinRel(w));
  }

  /** A pair is never a parent of, nor a twin to, a node with an equal
      representation. */
  lemma PairNotRelatedToEqualRep(w: World, n: Node, other: Node)
    requires n.Pair?
    ensures RepEq(w, Representation(w, n), Representation(w, other)) ==> !IsParentTo(w, n, other)
    ensures RepNodes(w, n) == RepNodes(w, other) ==> !IsTwinTo(w, n, other)
  {
  }

  /** A nested pair, one operand a parent of the other, delegates to the child
      operand. */
  lemma NestedPairDelegates(w: World, a: Node, b: Node, c: Option<RepValue>, other: Node)
    requires IsParentTo(w, a, b) && !IsParentTo(w, b, a)
    requires !RepEq(w, Representation(w, Pair(a, b, c)), Representation(w, other))
    ensures IsParentTo(w, Pair(a, b, c), other) == IsParentTo(w, b, other)
    ensures c.None? ==> Representation(w, Pair(a, b, c)) == Representation(w, b)
  {
  }

  /** For unrelated operands the pair is a parent only where at least one
      operand is, and it is one wherever both operands are. */
  lemma UnrelatedPairParent(w: World, a: Node, b: Node, c: Option<RepValue>, other: Node)
    requires !IsParentTo(w, a, b) && !IsParentTo(w, b, a)
    ensures IsParentTo(w, Pair(a, b, c), other) ==> IsParentTo(w, a, other) || IsParentTo(w, b, other)
    ensures IsParentTo(w, Pair(a, b, c), other) ==>
      (IsParentTo(w, a, other) && IsParentTo(w, b, other)) || IsTwinTo(w, a, other) || IsTwinTo(w, b, other)
    ensures (!RepEq(w, Representation(w, Pair(a, b, c)), Representation(w, other)) &&
      IsParentTo(w, a, other) && IsParentTo(w, b, other)) ==> IsParentTo(w, Pair(a, b, c), other)
    ensures c.None? ==> Representation(w, Pair(a, b, c)) == RepUnion(w, Representation(w, a), Representation(w, b))
  {
    var same := RepEq(w, Representation(w, Pair(a, b, c)), Representation(w, other));
    assert IsParentTo(w, Pair(a, b, c), other) == PairIsParentTo(w, a, b, same, other);
  }

  /** The children every group of `rep` has. */
  function SharedChildren(w: World, rep: set<nat>): (r: set<nat>)
    ensures rep != {} ==> forall c :: c in r <==> forall g | g in rep :: c in w(g).children
    ensures rep == {} ==> r == {}
  {
    set g, c | g in rep && c in w(g).children && (forall h | h in rep :: c in w(h).children) :: c
  }

  /** `get_children` of a pair as written: `set().intersection(...)` starts from
      the empty set. */
  function ChildrenAsWritten(w: World, n: Node): (r: set<nat>)
    ensures n.Pair? ==> r == {}
  {
    match n
    case Atom(y) => w(y).children
    case Pair(_, _, _) => {} * SharedChildren(w, RepNodes(w, n))
  }

  /** `get_children` as evidently intended: the children all the representation
      groups of a pair share (none when the representation is empty). */
  function Children(w: World, n: Node): (r: set<nat>)
    ensures n.Pair? && RepNodes(w, n) != {} ==> forall c :: c in r <==> forall g | g in RepNodes(w, n) :: c in w(g).children
    ensures n.Pair? && RepNodes(w, n) == {} ==> r == {}
  {
    match n
    case Atom(y) => w(y).children
    case Pair(_, _, _) => SharedChildren(w, RepNodes(w, n))
  }

  /** Two unrelated atomic nodes 0 and 1 that share the child 2. */
  function SharedChildWorld(x: nat): AtomInfo {
    AtomInfo("", [], {}, if x < 2 then {2} else {}, {})
  }

  /** Nodes with no parent or twin among themselves are already reduced. */
  lemma ReduceUnrelated(w: World, s: set<nat>)
    requires forall x, y | x in s && y in s :: x !in w(y).parents && x !in w(y).twins
    ensures Reduce(w, s) == s
  {
    var par, tw := ParentRel(w), TwinRel(w);
    assert ParentFree(s, par) == s;
    var l := Listing(s);
    forall i, j | 0 <= i < j < |l| ensures !tw(l[i], l[j]) {
      assert l[i] in s && l[j] in s;
    }
    ReducedKeepsAll(s, l, par, tw);
  }

  /** A pair of two atoms, neither a parent or twin of itself or of the other,
      stands for both. */
  lemma UnrelatedAtomsRep(w: World, x: nat, y: nat)
    requires x !in w(x).parents && x !in w(y).parents && y !in w(x).parents && y !in w(y).parents
    requires x !in w(x).twins && x !in w(y).twins && y !in w(x).twins && y !in w(y).twins
    ensures RepNodes(w, Pair(Atom(x), Atom(y), None)) == {x, y}
  {
    var n := Pair(Atom(x), Atom(y), None);
    UnrelatedAtomsUnion(w, x, y);
    ReduceUnrelated(w, {x, y});
    assert RepNodes(w, n) == NodesOf(w, RepValue({x, y}, true));
  }

  /** Such a pair's representation is the unreduced union of the two atoms. */
  lemma UnrelatedAtomsUnion(w: World, x: nat, y: nat)
    requires x !in w(x).parents && x !in w(y).parents && y !in w(x).parents && y !in w(y).parents
    ensures Representation(w, Pair(Atom(x), Atom(y), None)) == RepValue({x, y}, true)
  {
    AtomQueries(w, x, y);
    AtomQueries(w, y, x);
    UnrelatedPairParent(w, Atom(x), Atom(y), None, Atom(x));
    var rx, ry := Representation(w, Atom(x)), Representation(w, Atom(y));
    assert Representation(w, Pair(Atom(x), Atom(y), None)) == RepUnion(w, rx, ry);
    assert NodesOf(w, rx) == RepNodes(w, Atom(x)) == {x};
    assert NodesOf(w, ry) == RepNodes(w, Atom(y)) == {y};
  }

  /** The pair of the unrelated nodes 0 and 1 stands for both. */
  lemma SharedChildPairRep()
    ensures RepNodes(SharedChildWorld, Pair(Atom(0), Atom(1), None)) == {0, 1}
  {
    UnrelatedAtomsRep(SharedChildWorld, 0, 1);
  }

  lemma SharedChildOfBoth()
    ensures SharedChildren(SharedChildWorld, {0, 1}) == {2}
  {
    var shared := SharedChildren(SharedChildWorld, {0, 1});
    assert 2 in shared;
  }

  /** As written, the pair of 0 and 1 has no children although both have child 2. */
  lemma ChildrenAsWrittenLosesSharedChild()
    ensures Children(SharedChildWorld, Pair(Atom(0), Atom(1), None)) == {2}
    ensures ChildrenAsWritten(SharedChildWorld, Pair(Atom(0), Atom(1), None)) == {}
  {
    SharedChildPairRep();
    SharedChildOfBoth();
  }

  // ---------------------------------------------------------------- length

  /** `__len__`: 1 for an atomic node, `len(a) + len(b)` for a pair. */
  function Len(n: Node): nat {
    match n
    case Atom(_) => 1
    case Pair(a, b, _) => Len(a) + Len(b)
  }

  /** The atomic nodes of a node, left to right. */
  function LeafSeq(n: Node): seq<nat> {
    match n
    case Atom(x) => [x]
    case Pair(a, b, _) => LeafSeq(a) + LeafSeq(b)
  }

  /** The length of a node counts its atomic leaves. */
  lemma {:induction false} LenCountsLeaves(n: Node)
    ensures Len(n) == |LeafSeq(n)| >= 1
  {
    match n
    case Atom(_) =>
    case Pair(a, b, _) =>
      LenCountsLeaves(a);
      LenCountsLeaves(b);
  }

  // ---------------------------------------------------------------- members

  function PairOf(p: Node, c: Node): Node {
    Pair(p, c, None)
  }

  function NodeParentRel(w: World): (Node, Node) -> bool {
    (p: Node, c: Node) => IsParentTo(w, p, c)
  }

  /** The strategy `get_members` picks for a pair, given its operands' member
      arrays and the relations between the operands. */
  function PairMembers(w: World, ma: Nodes.NdArray<Node>, mb: Nodes.NdArray<Node>, sameRep: bool, aParent: bool, bParent: bool): (r: Option<Nodes.NdArray<Node>>)
    requires Nodes.WellShaped(ma) && Nodes.WellShaped(mb)
    ensures r.Some? ==> Nodes.WellShaped(r.value)
  {
    if Nodes.Len0(ma) == 0 && Nodes.Len0(mb) == 0 then
      assert Nodes.Product([0]) == 0 by {
        assert [0][..0] == [];
      }
      Some(Nodes.NdArray([], [0]))
    else if sameRep then Some(ma)
    else if aParent || bParent then
      var parent := if aParent then ma else mb;
      var child := if aParent then mb else ma;
      var pairs := Nodes.ParentChildPairs(parent.flat, child.flat, NodeParentRel(w), PairOf);
      if pairs.None? then None else Some(Nodes.NdArray(pairs.value, child.shape))
    else
      Nodes.ProductConcat(ma.shape, mb.shape);
      Some(Nodes.NdArray(Nodes.SameLevelPairs(ma.flat, mb.flat, PairOf), ma.shape + mb.shape))
  }

  /** `get_members`: an atomic node's member array, or for a pair one of the
      strategies (no members, equal representations, parent and child, same
      level). `None` where `next` raises StopIteration. */
  function Members(w: World, n: Node): (r: Option<Nodes.NdArray<Node>>)
    ensures r.Some? ==> Nodes.WellShaped(r.value)
  {
    match n
    case Atom(x) =>
      var ms := w(x).members;
      assert Nodes.Product([|ms|]) == |ms| by {
        assert [|ms|][..0] == [];
      }
      Some(Nodes.NdArray(seq(|ms|, i requires 0 <= i < |ms| => Atom(ms[i])), [|ms|]))
    case Pair(a, b, _) => OperandMembers(w, a, b, Members(w, a), Members(w, b))
  }

  /** A pair's members from its operands' members (`None` where building them
      failed). `b`'s members are only needed when `a` has no members or the
      representations differ, as the `and` and the early return in
      `get_members` leave `b.get_members()` unevaluated otherwise. */
  function OperandMembers(w: World, a: Node, b: Node, ma: Option<Nodes.NdArray<Node>>, mb: Option<Nodes.NdArray<Node>>): (r: Option<Nodes.NdArray<Node>>)
    requires ma.Some? ==> Nodes.WellShaped(ma.value)
    requires mb.Some? ==> Nodes.WellShaped(mb.value)
    ensures r.Some? ==> Nodes.WellShaped(r.value)
  {
    if ma.None? then None
    else if mb.None? then
      if Nodes.Len0(ma.value) > 0 && RepEq(w, Representation(w, a), Representation(w, b)) then ma else None
    else PairMembers(w, ma.value, mb.value, RepEq(w, Representation(w, a), Representation(w, b)), IsParentTo(w, a, b), IsParentTo(w, b, a))
  }

  /** Operands without members give a pair without members; operands with equal
      representations give a pair with `a`'s members. */
  lemma MembersDegenerate(w: World, a: Node, b: Node, c: Option<RepValue>)
    requires Members(w, a).Some?
    ensures Nodes.Len0(Members(w, a).value) == 0 ==>
      (Members(w, b).None? ==> Members(w, Pair(a, b, c)).None?) &&
      (Members(w, b).Some? && Nodes.Len0(Members(w, b).value) == 0 ==>
        Members(w, Pair(a, b, c)) == Some(Nodes.NdArray([], [0])))
    ensures Nodes.Len0(Members(w, a).value) > 0 && RepEq(w, Representation(w, a), Representation(w, b)) ==>
      Members(w, Pair(a, b, c)) == Members(w, a)
    ensures (Members(w, b).Some? && Nodes.Len0(Members(w, b).value) > 0 &&
      RepEq(w, Representation(w, a), Representation(w, b))) ==> Members(w, Pair(a, b, c)) == Members(w, a)
  {
    assert Members(w, Pair(a, b, c)) == OperandMembers(w, a, b, Members(w, a), Members(w, b));
  }

  /** Position `k` holds the first member of `parent` that is a parent of `c`. */
  predicate IsFirstParent(w: World, parent: seq<Node>, c: Node, k: int) {
    0 <= k < |parent| && IsParentTo(w, parent[k], c) && forall k' | 0 <= k' < k :: !IsParentTo(w, parent[k'], c)
  }

  /** Some member of `parent` is a parent of `c`. */
  predicate HasParentMember(w: World, parent: seq<Node>, c: Node) {
    exists k | 0 <= k < |parent| :: IsParentTo(w, parent[k], c)
  }

  /** `next(filter(...))` finds the first parent member whenever there is one. */
  lemma FirstParentMeaning(w: World, parent: seq<Node>, c: Node)
    ensures Nodes.FirstParent(parent, c, NodeParentRel(w)).Some? <==> HasParentMember(w, parent, c)
    ensures forall k | IsFirstParent(w, parent, c, k) :: Nodes.FirstParent(parent, c, NodeParentRel(w)) == Some(k)
  {
    var rel := NodeParentRel(w);
    var f := Nodes.FirstParent(parent, c, rel);
    if f.Some? {
      assert rel(parent[f.value], c);
      forall k | IsFirstParent(w, parent, c, k) ensures f == Some(k) {
        assert !rel(parent[k], c) || k >= f.value;
        assert k <= f.value;
      }
    } else {
      forall k | 0 <= k < |parent| ensures !IsParentTo(w, parent[k], c) {
        assert !rel(parent[k], c);
      }
    }
  }

  /** The parent-child builder over node arrays: it succeeds exactly when every
      child member has a parent member, and then entry i pairs the first such
      parent member with child member i. */
  lemma ParentChildPairsMeaning(w: World, parent: seq<Node>, child: seq<Node>)
    ensures var r := Nodes.ParentChildPairs(parent, child, NodeParentRel(w), PairOf);
      (r.Some? <==> forall i | 0 <= i < |child| :: HasParentMember(w, parent, child[i])) &&
      (r.Some? ==> (|r.value| == |child| &&
        forall i, k | 0 <= i < |child| && IsFirstParent(w, parent, child[i], k) :: r.value[i] == Pair(parent[k], child[i], None)))
  {
    forall i | 0 <= i < |child|
      ensures Nodes.FirstParent(parent, child[i], NodeParentRel(w)).Some? <==> HasParentMember(w, parent, child[i])
      ensures forall k | IsFirstParent(w, parent, child[i], k) :: Nodes.FirstParent(parent, child[i], NodeParentRel(w)) == Some(k)
    {
      FirstParentMeaning(w, parent, child[i]);
    }
  }

  /** For a parent and a child operand, the pair's members follow the child's
      members: same shape, and entry i pairs the first parent member that is a
      parent of child member i with that child member. The build fails exactly
      when some child member has no parent member. */
  lemma ParentChildMembers(w: World, ma: Nodes.NdArray<Node>, mb: Nodes.NdArray<Node>, aParent: bool, bParent: bool)
    requires Nodes.WellShaped(ma) && Nodes.WellShaped(mb)
    requires Nodes.Len0(ma) + Nodes.Len0(mb) > 0
    requires aParent || bParent
    ensures var parent, child := if aParent then ma else mb, if aParent then mb else ma;
      var m := PairMembers(w, ma, mb, false, aParent, bParent);
      (m.Some? <==> forall i | 0 <= i < |child.flat| :: HasParentMember(w, parent.flat, child.flat[i])) &&
      (m.Some? ==> (m.value.shape == child.shape && |m.value.flat| == |child.flat| &&
        forall i, k | 0 <= i < |child.flat| && IsFirstParent(w, parent.flat, child.flat[i], k) ::
          m.value.flat[i] == Pair(parent.flat[k], child.flat[i], None)))
  {
    var parent := if aParent then ma else mb;
    var child := if aParent then mb else ma;
    ParentChildPairsMeaning(w, parent.flat, child.flat);
  }

  /** For unrelated operands the members are the product reshaped to
      `a.shape + b.shape`: the member at multi-index `ia + ib` pairs `a`'s
      member at `ia` with `b`'s member at `ib`. */
  lemma SameLevelMembers(w: World, a: Node, b: Node, c: Option<RepValue>, ia: seq<nat>, ib: seq<nat>)
    requires Members(w, a).Some? && Members(w, b).Some?
    requires Nodes.Len0(Members(w, a).value) + Nodes.Len0(Members(w, b).value) > 0
    requires !RepEq(w, Representation(w, a), Representation(w, b))
    requires !IsParentTo(w, a, b) && !IsParentTo(w, b, a)
    requires Nodes.InBounds(ia, Members(w, a).value.shape) && Nodes.InBounds(ib, Members(w, b).value.shape)
    ensures var ma, mb, m := Members(w, a).value, Members(w, b).value, Members(w, Pair(a, b, c));
      m.Some? && m.value.shape == ma.shape + mb.shape &&
      Nodes.Ravel(ia, ma.shape) < |ma.flat| && Nodes.Ravel(ib, mb.shape) < |mb.flat| &&
      Nodes.Ravel(ia + ib, m.value.shape) < |m.value.flat| &&
      m.value.flat[Nodes.Ravel(ia + ib, m.value.shape)] == Pair(ma.flat[Nodes.Ravel(ia, ma.shape)], mb.flat[Nodes.Ravel(ib, mb.shape)], None)
  {
    MembersOfPair(w, a, b, c);
    SameLevelPairMembers(w, Members(w, a).value, Members(w, b).value, ia, ib);
  }

  /** One unfolding of `Members` on a pair whose operands have members. */
  lemma MembersOfPair(w: World, a: Node, b: Node, c: Option<RepValue>)
    requires Members(w, a).Some? && Members(w, b).Some?
    ensures Members(w, Pair(a, b, c)) == PairMembers(w, Members(w, a).value, Members(w, b).value,
      RepEq(w, Representation(w, a), Representation(w, b)), IsParentTo(w, a, b), IsParentTo(w, b, a))
  {
    assert Members(w, Pair(a, b, c)) == OperandMembers(w, a, b, Members(w, a), Members(w, b));
  }

  /** The same-level strategy on two member arrays. */
  lemma SameLevelPairMembers(w: World, ma: Nodes.NdArray<Node>, mb: Nodes.NdArray<Node>, ia: seq<nat>, ib: seq<nat>)
    requires Nodes.WellShaped(ma) && Nodes.WellShaped(mb)
    requires Nodes.Len0(ma) + Nodes.Len0(mb) > 0
    requires Nodes.InBounds(ia, ma.shape) && Nodes.InBounds(ib, mb.shape)
    ensures var m := PairMembers(w, ma, mb, false, false, false);
      m.Some? && m.value.shape == ma.shape + mb.shape &&
      Nodes.Ravel(ia, ma.shape) < |ma.flat| && Nodes.Ravel(ib, mb.shape) < |mb.flat| &&
      Nodes.Ravel(ia + ib, m.value.shape) < |m.value.flat| &&
      m.value.flat[Nodes.Ravel(ia + ib, m.value.shape)] == Pair(ma.flat[Nodes.Ravel(ia, ma.shape)], mb.flat[Nodes.Ravel(ib, mb.shape)], None)
  {
    var m := PairMembers(w, ma, mb, false, false, false);
    assert m == Some(Nodes.NdArray(Nodes.SameLevelPairs(ma.flat, mb.flat, PairOf), ma.shape + mb.shape));
    Nodes.SameLevelAtMultiIndex(ma, mb, PairOf, ia, ib);
  }

  // ---------------------------------------------------------------- caching

  /** A pair after `representation()` has stored its result in `rep_nodes`. */
  function Cached(w: World, n: Node): Node {
    match n
    case Atom(_) => n
    case Pair(a, b, _) => Pair(a, b, Some(Representation(w, n)))
  }

  /** `representation()` on a pair: the representation, and the pair with the
      cache filled. */
  method RepresentationOf(w: World, n: Node) returns (rep: RepValue, n': Node)
    ensures rep == Representation(w, n) && n' == Cached(w, n)
  {
    rep := Representation(w, n);
    if n.Pair? {
      n' := n.(repNodes := Some(rep));
    } else {
      n' := n;
    }
  }

  /** Filling the cache keeps the representation, and filling it again
      changes nothing. */
  lemma CachedRepresentation(w: World, n: Node)
    ensures Representation(w, Cached(w, n)) == Representation(w, n)
    ensures RepNodes(w, Cached(w, n)) == RepNodes(w, n)
    ensures Cached(w, Cached(w, n)) == Cached(w, n)
  {
  }

  /** Filling the cache changes none of the node's own queries. */
  lemma CachedParentAgrees(w: World, a: Node, b: Node, c: Option<RepValue>, other: Node)
    ensures IsParentTo(w, Cached(w, Pair(a, b, c)), other) == IsParentTo(w, Pair(a, b, c), other)
  {
    CachedRepresentation(w, Pair(a, b, c));
  }

  lemma CachedTwinAgrees(w: World, a: Node, b: Node, c: Option<RepValue>, other: Node)
    ensures IsTwinTo(w, Cached(w, Pair(a, b, c)), other) == IsTwinTo(w, Pair(a, b, c), other)
  {
    CachedRepresentation(w, Pair(a, b, c));
  }

  lemma CachedSetsAgree(w: World, a: Node, b: Node, c: Option<RepValue>)
    ensures Parents(w, Cached(w, Pair(a, b, c))) == Parents(w, Pair(a, b, c))
    ensures Twins(w, Cached(w, Pair(a, b, c))) == Twins(w, Pair(a, b, c))
  {
    CachedRepresentation(w, Pair(a, b, c));
  }

  lemma CachedMembersAgree(w: World, a: Node, b: Node, c: Option<RepValue>)
    ensures Members(w, Cached(w, Pair(a, b, c))) == Members(w, Pair(a, b, c))
    ensures Len(Cached(w, Pair(a, b, c))) == Len(Pair(a, b, c))
  {
  }

  /** Nor does it change how any other node relates to it. */
  lemma {:induction false} CachedTargetAgrees(w: World, n: Node, o: Node)
    ensures IsParentTo(w, o, Cached(w, n)) == IsParentTo(w, o, n)
    ensures IsTwinTo(w, o, Cached(w, n)) == IsTwinTo(w, o, n)
    decreases Size(o)
  {
    CachedRepresentation(w, n);
    match o
    case Atom(_) =>
    case Pair(a, b, _) =>
      CachedTargetAgrees(w, n, a);
      CachedTargetAgrees(w, n, b);
  }

  // ---------------------------------------------------------------- generate_nodepair

  /** The left-nested pair over a listing: `((l0, l1), l2), ...`. */
  function Chain(l: seq<nat>): (r: Node)
    requires |l| >= 2
    ensures r.Pair?
  {
    if |l| == 2 then Pair(Atom(l[0]), Atom(l[1]), None)
    else Pair(Chain(l[..|l| - 1]), Atom(l[|l| - 1]), None)
  }

  /** `generate_nodepair` for the listing `l` of the representation's nodes:
      the node itself for a singleton, IndexError (`None`) for an empty one,
      and otherwise the left-nested pair carrying the representation. */
  function Generated(w: World, rep: RepValue, l: seq<nat>): Option<Node>
    requires Enumerates(l, NodesOf(w, rep))
  {
    if |l| == 1 then Some(Atom(l[0]))
    else if |l| < 2 then None
    else
      var chain := Chain(l);
      Some(Pair(chain.a, chain.b, Some(RepValue(NodesOf(w, rep), false))))
  }

  /** The loop of `generate_nodepair`, over the order `list` walks the reduced
      set in. */
  method GenerateNodePair(w: World, rep: RepValue) returns (r: Option<Node>, lnodes: seq<nat>)
    ensures Enumerates(lnodes, NodesOf(w, rep))
    ensures r == Generated(w, rep, lnodes)
  {
    var nodes := NodesOf(w, rep);
    lnodes := Enumerate(nodes);
    EnumeratesCard(lnodes, nodes);
    if |nodes| == 1 {
      return Some(Atom(lnodes[0])), lnodes;
    }
    if |lnodes| < 2 {
      return None, lnodes;
    }
    var nodepair := Pair(Atom(lnodes[0]), Atom(lnodes[1]), None);
    assert lnodes[..2] == [lnodes[0], lnodes[1]];
    for k := 2 to |lnodes|
      invariant nodepair == Chain(lnodes[..k])
    {
      assert lnodes[..k + 1][..k] == lnodes[..k];
      nodepair := Pair(nodepair, Atom(lnodes[k]), None);
    }
    assert lnodes[..|lnodes|] == lnodes;
    r := Some(Pair(nodepair.a, nodepair.b, Some(RepValue(nodes, false))));
  }

  lemma {:induction false} ChainLeaves(l: seq<nat>)
    requires |l| >= 2
    ensures LeafSeq(Chain(l)) == l
  {
    if |l| > 2 {
      ChainLeaves(l[..|l| - 1]);
      assert l == l[..|l| - 1] + [l[|l| - 1]];
    }
  }

  /** `generate_nodepair` fails exactly on an empty representation; otherwise
      its leaves are the listed nodes, so its length is the representation's,
      and a built pair presents exactly those nodes. */
  lemma GeneratedMeaning(w: World, rep: RepValue, l: seq<nat>)
    requires Enumerates(l, NodesOf(w, rep))
    ensures Generated(w, rep, l).None? <==> NodesOf(w, rep) == {}
    ensures Generated(w, rep, l).Some? ==> LeafSeq(Generated(w, rep, l).value) == l
    ensures Generated(w, rep, l).Some? ==> Len(Generated(w, rep, l).value) == RepLen(w, rep)
    ensures |l| >= 2 ==> Generated(w, rep, l).value.Pair? && RepNodes(w, Generated(w, rep, l).value) == NodesOf(w, rep)
  {
    EnumeratesCard(l, NodesOf(w, rep));
    var g := Generated(w, rep, l);
    if |l| > 0 {
      assert l[0] in NodesOf(w, rep);
      LenCountsLeaves(g.value);
      if |l| >= 2 {
        ChainLeaves(l);
      }
    }
  }

  // ---------------------------------------------------------------- reduced_repr

  /** `reduced_repr`: an operand whose representation equals the pair's and
      whose length matches it, reduced; otherwise a freshly generated pair when
      the pair's length differs from its representation's; otherwise the pair
      itself. `None` where `generate_nodepair` raises IndexError. */
  function ReducedRepr(w: World, n: Node): Option<Node> {
    match n
    case Atom(_) => Some(n)
    case Pair(a, b, _) =>
      var rep := Representation(w, n);
      var len := RepLen(w, rep);
      if RepEq(w, rep, Representation(w, a)) && Len(a) == len then ReducedRepr(w, a)
      else if RepEq(w, rep, Representation(w, b)) && Len(b) == len then ReducedRepr(w, b)
      else if Len(n) != len then Generated(w, rep, Listing(NodesOf(w, rep)))
      else Some(n)
  }

  /** A reduced node has no redundant leaves: an atomic node, or a node as long
      as its representation. */
  lemma {:induction false} ReducedReprTight(w: World, n: Node)
    ensures ReducedRepr(w, n).Some? ==>
      ReducedRepr(w, n).value.Atom? || Len(ReducedRepr(w, n).value) == RepLen(w, Representation(w, ReducedRepr(w, n).value))
  {
    match n
    case Atom(_) =>
    case Pair(a, b, _) =>
      var rep := Representation(w, n);
      var len := RepLen(w, rep);
      if RepEq(w, rep, Representation(w, a)) && Len(a) == len {
        ReducedReprTight(w, a);
      } else if RepEq(w, rep, Representation(w, b)) && Len(b) == len {
        ReducedReprTight(w, b);
      } else if Len(n) != len {
        var l := Listing(NodesOf(w, rep));
        GeneratedMeaning(w, rep, l);
        EnumeratesCard(l, NodesOf(w, rep));
      }
  }

  /** An atomic node is its own reduced form, of length 1. */
  lemma AtomReducedRepr(w: World, x: nat)
    ensures ReducedRepr(w, Atom(x)) == Some(Atom(x)) && Len(Atom(x)) == 1
  {
  }
}
