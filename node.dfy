/** sakkara/relation/node.py: the node interface with its generic member
    mapping (`get_mapping`, `map_to`), and the first versions of `NodePair` and
    `AtomicNode`. Nodes are values: an atomic node is its id in a World
    snapshot, a pair holds its two operands. Member arrays are a row-major flat
    sequence with a shape. The member builders and the argmax/unravel
    arithmetic are generic, and sakkara/relation/nodepair.py repeats the
    builders verbatim. */
module Nodes {
  import opened Seqs
  import opened AtomicNodes

  // ---------------------------------------------------------------- arrays

  /** A numpy array: its elements in row-major (C) order and its shape. */
  datatype NdArray<T> = NdArray(flat: seq<T>, shape: seq<nat>)

  /** The number of elements of an array of the given shape. */
  function Product(shape: seq<nat>): nat {
    if |shape| == 0 then 1 else Product(shape[..|shape| - 1]) * shape[|shape| - 1]
  }

  /** The arrays the engine builds have at least one axis and as many elements
      as their shape says. */
  predicate WellShaped<T>(m: NdArray<T>) {
    |m.shape| > 0 && Product(m.shape) == |m.flat|
  }

  /** `len(array)`: the length of the first axis. */
  function Len0<T>(m: NdArray<T>): nat {
    if |m.shape| == 0 then 0 else m.shape[0]
  }

  lemma {:induction false} ProductConcat(s: seq<nat>, t: seq<nat>)
    ensures Product(s + t) == Product(s) * Product(t)
  {
    if |t| > 0 {
      var t', last := t[..|t| - 1], t[|t| - 1];
      assert (s + t)[..|s + t| - 1] == s + t';
      ProductConcat(s, t');
      assert Product(s + t) == Product(s + t') * last;
      assert Product(s) * Product(t') * last == Product(s) * (Product(t') * last);
    } else {
      assert s + t == s;
    }
  }

  /** The flat position of a multi-index (`np.ravel_multi_index`). */
  function Ravel(idx: seq<nat>, shape: seq<nat>): nat
    requires |idx| == |shape|
  {
    if |shape| == 0 then 0
    else Ravel(idx[..|idx| - 1], shape[..|shape| - 1]) * shape[|shape| - 1] + idx[|idx| - 1]
  }

  predicate InBounds(idx: seq<nat>, shape: seq<nat>) {
    |idx| == |shape| && forall d | 0 <= d < |shape| :: idx[d] < shape[d]
  }

  lemma MulMono(a: nat, b: nat, m: nat)
    ensures a <= b ==> a * m <= b * m
  {
  }

  lemma DivModSplit(k: int, m: int)
    requires m > 0
    ensures (k / m) * m + k % m == k
  {
  }

  lemma DivBelow(k: nat, p: nat, m: nat)
    requires k < p * m
    ensures m > 0 && k / m < p
  {
    assert m > 0;
    MulMono(p, k / m, m);
  }

  /** The multi-index of a flat position (`np.unravel_index`, C order). */
  function Unravel(k: nat, shape: seq<nat>): (idx: seq<nat>)
    requires k < Product(shape)
    ensures InBounds(idx, shape)
    decreases |shape|
  {
    if |shape| == 0 then []
    else
      var init, last := shape[..|shape| - 1], shape[|shape| - 1];
      var p := Product(init);
      assert k < p * last;
      DivBelow(k, p, last);
      var r := Unravel(k / last, init) + [k % last];
      assert forall d | 0 <= d < |init| :: r[d] == Unravel(k / last, init)[d];
      r
  }

  /** Unravelling and ravelling again gives back the flat position. */
  lemma {:induction false} RavelUnravel(k: nat, shape: seq<nat>)
    requires k < Product(shape)
    ensures Ravel(Unravel(k, shape), shape) == k
    decreases |shape|
  {
    if |shape| > 0 {
      var init, last := shape[..|shape| - 1], shape[|shape| - 1];
      UnravelLast(k, shape);
      var q := k / last;
      RavelUnravel(q, init);
      var u := Unravel(k, shape);
      assert u[..|u| - 1] == Unravel(q, init);
      assert Ravel(u, shape) == Ravel(Unravel(q, init), init) * last + k % last;
      DivModSplit(k, last);
    }
  }

  /** The last coordinate of an unravelled position is its remainder by the
      last extent; the others unravel the quotient. */
  lemma UnravelLast(k: nat, shape: seq<nat>)
    requires k < Product(shape) && |shape| > 0
    ensures var init, last := shape[..|shape| - 1], shape[|shape| - 1];
      last > 0 && k / last < Product(init) && Unravel(k, shape) == Unravel(k / last, init) + [k % last]
  {
    var init, last := shape[..|shape| - 1], shape[|shape| - 1];
    assert k < Product(init) * last;
    DivBelow(k, Product(init), last);
  }

  /** An in-bounds multi-index has a flat position inside the array. */
  lemma {:induction false} RavelBelow(idx: seq<nat>, shape: seq<nat>)
    requires InBounds(idx, shape)
    ensures Ravel(idx, shape) < Product(shape)
    decreases |shape|
  {
    if |shape| > 0 {
      var init, last := shape[..|shape| - 1], shape[|shape| - 1];
      var idx' := idx[..|idx| - 1];
      var r, p := Ravel(idx', init), Product(init);
      RavelBelow(idx', init);
      assert Ravel(idx, shape) == r * last + idx[|idx| - 1];
      assert (r + 1) * last == r * last + last;
      MulMono(r + 1, p, last);
    }
  }

  lemma DivModUnique(q: nat, m: nat, r: nat)
    requires r < m
    ensures (q * m + r) / m == q && (q * m + r) % m == r
  {
    var k := q * m + r;
    var q', r' := k / m, k % m;
    assert k == q' * m + r';
    MulMono(q + 1, q', m);
    MulMono(q' + 1, q, m);
    assert (q + 1) * m == q * m + m;
    assert (q' + 1) * m == q' * m + m;
  }

  /** Ravelling an in-bounds multi-index and unravelling again gives it back, so
      the two are inverse bijections between positions and multi-indices. */
  lemma {:induction false} UnravelRavel(idx: seq<nat>, shape: seq<nat>)
    requires InBounds(idx, shape)
    ensures Ravel(idx, shape) < Product(shape) && Unravel(Ravel(idx, shape), shape) == idx
  {
    RavelBelow(idx, shape);
    if |shape| > 0 {
      var init, last := shape[..|shape| - 1], shape[|shape| - 1];
      var idx' := idx[..|idx| - 1];
      var r := Ravel(idx', init);
      var k := Ravel(idx, shape);
      assert k == r * last + idx[|idx| - 1];
      DivModUnique(r, last, idx[|idx| - 1]);
      UnravelLast(k, shape);
      UnravelRavel(idx', init);
      assert idx == idx' + [idx[|idx| - 1]];
    }
  }

  // ---------------------------------------------------------------- argmax

  /** `np.argmax` over the first `n` scores, as numpy computes it: walk the
      array and move to a later position only when its score is greater (`>`)
      than the current best. */
  function ArgMaxPrefix<S>(scores: seq<S>, gt: (S, S) -> bool, n: nat): (k: nat)
    requires 0 < n <= |scores|
    ensures k < n
  {
    if n == 1 then 0
    else
      var k := ArgMaxPrefix(scores, gt, n - 1);
      if gt(scores[n - 1], scores[k]) then n - 1 else k
  }

  function ArgMax<S>(scores: seq<S>, gt: (S, S) -> bool): (k: nat)
    requires |scores| > 0
    ensures k < |scores|
  {
    ArgMaxPrefix(scores, gt, |scores|)
  }

  /** No later score beats the one chosen. */
  lemma {:induction false} ArgMaxNotBeatenLater<S>(scores: seq<S>, gt: (S, S) -> bool, n: nat)
    requires 0 < n <= |scores|
    ensures forall j | ArgMaxPrefix(scores, gt, n) < j < n :: !gt(scores[j], scores[ArgMaxPrefix(scores, gt, n)])
  {
    if n > 1 {
      ArgMaxNotBeatenLater(scores, gt, n - 1);
    }
  }

  function Greater(x: int, y: int): bool {
    x > y
  }

  /** On integer scores argmax is the first position of the maximum. */
  lemma {:induction false} ArgMaxIntIsFirstMax(scores: seq<int>, n: nat)
    requires 0 < n <= |scores|
    ensures forall j | 0 <= j < n :: scores[j] <= scores[ArgMaxPrefix(scores, Greater, n)]
    ensures forall j | 0 <= j < ArgMaxPrefix(scores, Greater, n) :: scores[j] < scores[ArgMaxPrefix(scores, Greater, n)]
  {
    if n > 1 {
      ArgMaxIntIsFirstMax(scores, n - 1);
    }
  }

  // ---------------------------------------------------------------- get_mapping

  /** The score row `match_fct(self_member, raveled_other_members)`. */
  function Scores<T, S>(x: T, others: seq<T>, score: (T, T) -> S): (r: seq<S>)
    ensures |r| == |others|
  {
    seq(|others|, j requires 0 <= j < |others| => score(x, others[j]))
  }

  /** Coordinate `d` of every mapped member. */
  function Axis(raveled: seq<nat>, shape: seq<nat>, d: nat): (r: seq<nat>)
    requires d < |shape|
    requires forall i | 0 <= i < |raveled| :: raveled[i] < Product(shape)
    ensures |r| == |raveled|
    ensures forall i | 0 <= i < |raveled| :: r[i] == Unravel(raveled[i], shape)[d]
  {
    seq(|raveled|, i requires 0 <= i < |raveled| => Unravel(raveled[i], shape)[d])
  }

  /** The multi-index of member `i` read off the coordinate sequences. */
  function Column(axes: seq<seq<nat>>, i: nat): (idx: seq<nat>)
    requires forall d | 0 <= d < |axes| :: i < |axes[d]|
    ensures |idx| == |axes| && forall d | 0 <= d < |axes| :: idx[d] == axes[d][i]
  {
    seq(|axes|, d requires 0 <= d < |axes| => axes[d][i])
  }

  /** `np.unravel_index(raveled, shape)`: one coordinate sequence per axis; the
      coordinates of every member are in bounds and ravel back to its position. */
  function Axes(raveled: seq<nat>, shape: seq<nat>): (axes: seq<seq<nat>>)
    requires forall i | 0 <= i < |raveled| :: raveled[i] < Product(shape)
    ensures |axes| == |shape|
    ensures forall d | 0 <= d < |shape| :: |axes[d]| == |raveled|
    ensures forall d, i | 0 <= d < |shape| && 0 <= i < |raveled| :: axes[d][i] < shape[d]
    ensures forall i | 0 <= i < |raveled| :: Ravel(Column(axes, i), shape) == raveled[i]
  {
    var axes := seq(|shape|, d requires 0 <= d < |shape| => Axis(raveled, shape, d));
    forall i | 0 <= i < |raveled|
      ensures Ravel(Column(axes, i), shape) == raveled[i]
    {
      AxesColumn(raveled, shape, axes, i);
      RavelUnravel(raveled[i], shape);
    }
    forall d, i | 0 <= d < |shape| && 0 <= i < |raveled| ensures axes[d][i] < shape[d] {
      assert axes[d] == Axis(raveled, shape, d);
      assert axes[d][i] == Unravel(raveled[i], shape)[d];
    }
    axes
  }

  lemma AxesColumn(raveled: seq<nat>, shape: seq<nat>, axes: seq<seq<nat>>, i: nat)
    requires forall i | 0 <= i < |raveled| :: raveled[i] < Product(shape)
    requires i < |raveled| && |axes| == |shape|
    requires forall d | 0 <= d < |shape| :: axes[d] == Axis(raveled, shape, d)
    ensures forall d | 0 <= d < |axes| :: i < |axes[d]|
    ensures Column(axes, i) == Unravel(raveled[i], shape)
  {
    var u := Unravel(raveled[i], shape);
    forall d | 0 <= d < |shape| ensures i < |axes[d]| && axes[d][i] == u[d] {
      assert axes[d] == Axis(raveled, shape, d);
    }
    ColumnIs(axes, i, u);
  }

  /** A column that agrees with `u` on every axis is `u`. */
  lemma ColumnIs(axes: seq<seq<nat>>, i: nat, u: seq<nat>)
    requires |u| == |axes|
    requires forall d | 0 <= d < |axes| :: i < |axes[d]| && axes[d][i] == u[d]
    ensures Column(axes, i) == u
  {
    var c := Column(axes, i);
    assert forall d | 0 <= d < |c| :: c[d] == u[d];
  }

  /** `get_mapping(other, match_fct)` on raveled member arrays: for each member
      of this node, the position in `other`'s array of the argmax-best member,
      split into one coordinate sequence per axis of `other`'s shape. It fails
      (numpy's ValueError for an empty argmax) when this node has members and
      `other` has none. */
  function MappingSpec<T, S>(mine: seq<T>, theirs: seq<T>, shape: seq<nat>, score: (T, T) -> S, gt: (S, S) -> bool): (r: Option<seq<seq<nat>>>)
    requires Product(shape) == |theirs|
    ensures r.None? <==> |mine| > 0 && |theirs| == 0
    ensures r.Some? ==> |r.value| == |shape|
    ensures r.Some? ==> forall d | 0 <= d < |shape| :: |r.value[d]| == |mine|
    ensures r.Some? ==> forall d, i | 0 <= d < |shape| && 0 <= i < |mine| :: r.value[d][i] < shape[d]
    ensures r.Some? ==> forall i | 0 <= i < |mine| ::
      Ravel(Column(r.value, i), shape) == ArgMax(Scores(mine[i], theirs, score), gt)
  {
    if |mine| > 0 && |theirs| == 0 then None
    else Some(Axes(BestPositions(mine, theirs, score, gt), shape))
  }

  /** The argmax position in `theirs` of every member of `mine`. */
  function BestPositions<T, S>(mine: seq<T>, theirs: seq<T>, score: (T, T) -> S, gt: (S, S) -> bool): (r: seq<nat>)
    requires |mine| > 0 ==> |theirs| > 0
    ensures |r| == |mine|
    ensures forall i | 0 <= i < |mine| :: r[i] == ArgMax(Scores(mine[i], theirs, score), gt) && r[i] < |theirs|
  {
    seq(|mine|, i requires 0 <= i < |mine| => ArgMax(Scores(mine[i], theirs, score), gt))
  }

  /** The loop of `get_mapping`: writes each member's argmax into
      `raveled_mapping`, then unravels the positions. */
  method GetMapping<T, S>(mine: seq<T>, theirs: seq<T>, shape: seq<nat>, score: (T, T) -> S, gt: (S, S) -> bool)
    returns (r: Option<seq<seq<nat>>>)
    requires Product(shape) == |theirs|
    ensures r == MappingSpec(mine, theirs, shape, score, gt)
  {
    var raveledMapping := new nat[|mine|];
    for i := 0 to |mine|
      invariant i > 0 ==> |theirs| > 0
      invariant forall k | 0 <= k < i :: raveledMapping[k] == ArgMax(Scores(mine[k], theirs, score), gt)
    {
      var row := Scores(mine[i], theirs, score);
      if |row| == 0 {
        return None;
      }
      raveledMapping[i] := ArgMax(row, gt);
    }
    var raveled := raveledMapping[..];
    assert raveled == BestPositions(mine, theirs, score, gt);
    r := Some(Axes(raveled, shape));
  }

  // ---------------------------------------------------------------- member builders

  /** `next(filter(lambda p: p.is_parent_to(c), parents))`: the first parent
      member of `c`, `None` where `next` raises StopIteration. */
  function FirstParent<T>(parents: seq<T>, c: T, isParentTo: (T, T) -> bool): (k: Option<nat>)
    ensures k.Some? ==> k.value < |parents| && isParentTo(parents[k.value], c)
    ensures k.Some? ==> forall j | 0 <= j < k.value :: !isParentTo(parents[j], c)
    ensures k.None? <==> forall j | 0 <= j < |parents| :: !isParentTo(parents[j], c)
  {
    if |parents| == 0 then None
    else if isParentTo(parents[0], c) then Some(0)
    else
      var k := FirstParent(parents[1..], c, isParentTo);
      assert forall j | 1 <= j < |parents| :: parents[j] == parents[1..][j - 1];
      if k.None? then None else Some(k.value + 1)
  }

  /** `parent_child_member_pairs` on raveled arrays: one pair per child member,
      with the first parent member that is its parent in the first slot. */
  function ParentChildPairs<T>(parents: seq<T>, children: seq<T>, isParentTo: (T, T) -> bool, mk: (T, T) -> T): (r: Option<seq<T>>)
    ensures r.Some? <==> forall i | 0 <= i < |children| :: FirstParent(parents, children[i], isParentTo).Some?
    ensures r.Some? ==> |r.value| == |children|
    ensures r.Some? ==> forall i | 0 <= i < |children| ::
      r.value[i] == mk(parents[FirstParent(parents, children[i], isParentTo).value], children[i])
  {
    if |children| == 0 then Some([])
    else
      var init := children[..|children| - 1];
      var c := children[|children| - 1];
      var k := FirstParent(parents, c, isParentTo);
      var prefix := ParentChildPairs(parents, init, isParentTo, mk);
      assert forall i | 0 <= i < |init| :: children[i] == init[i];
      if prefix.None? || k.None? then None
      else Some(prefix.value + [mk(parents[k.value], c)])
  }

  /** The loop of `parent_child_member_pairs`. */
  method ParentChildMemberPairs<T>(parents: seq<T>, children: seq<T>, isParentTo: (T, T) -> bool, mk: (T, T) -> T)
    returns (r: Option<seq<T>>)
    ensures r == ParentChildPairs(parents, children, isParentTo, mk)
  {
    var members: seq<T> := [];
    for i := 0 to |children|
      invariant ParentChildPairs(parents, children[..i], isParentTo, mk) == Some(members)
    {
      var k := FirstParent(parents, children[i], isParentTo);
      if k.None? {
        PairsPrefixFails(parents, children, isParentTo, mk, i + 1);
        return None;
      }
      assert children[..i + 1][..i] == children[..i];
      members := members + [mk(parents[k.value], children[i])];
    }
    assert children[..|children|] == children;
    r := Some(members);
  }

  /** A child member without a parent member makes the whole build fail. */
  lemma PairsPrefixFails<T>(parents: seq<T>, children: seq<T>, isParentTo: (T, T) -> bool, mk: (T, T) -> T, n: nat)
    requires 0 < n <= |children| && FirstParent(parents, children[n - 1], isParentTo).None?
    ensures ParentChildPairs(parents, children, isParentTo, mk).None?
  {
    assert !FirstParent(parents, children[n - 1], isParentTo).Some?;
  }

  /** Row `x` of the Cartesian product. */
  function PairRow<T>(x: T, ys: seq<T>, mk: (T, T) -> T): (r: seq<T>)
    ensures |r| == |ys| && forall j | 0 <= j < |ys| :: r[j] == mk(x, ys[j])
  {
    seq(|ys|, j requires 0 <= j < |ys| => mk(x, ys[j]))
  }

  /** `same_level_member_pairs` on raveled arrays: the Cartesian product in
      row-major order. */
  function SameLevelPairs<T>(xs: seq<T>, ys: seq<T>, mk: (T, T) -> T): (r: seq<T>)
    ensures |r| == |xs| * |ys|
  {
    if |xs| == 0 then []
    else
      var prefix := SameLevelPairs(xs[..|xs| - 1], ys, mk);
      assert |prefix| + |ys| == (|xs| - 1) * |ys| + |ys| == |xs| * |ys|;
      prefix + PairRow(xs[|xs| - 1], ys, mk)
  }

  /** Entry `(i, j)` of the two-axis product is the pair of `xs[i]` and `ys[j]`. */
  lemma {:induction false} SameLevelAt<T>(xs: seq<T>, ys: seq<T>, mk: (T, T) -> T, i: nat, j: nat)
    requires i < |xs| && j < |ys|
    ensures i * |ys| + j < |xs| * |ys|
    ensures SameLevelPairs(xs, ys, mk)[i * |ys| + j] == mk(xs[i], ys[j])
  {
    var n, m := |xs|, |ys|;
    RowOffsetBelow(i, j, m, n);
    var init := xs[..n - 1];
    var prefix := SameLevelPairs(init, ys, mk);
    var row := PairRow(xs[n - 1], ys, mk);
    assert SameLevelPairs(xs, ys, mk) == prefix + row;
    if i < n - 1 {
      RowOffsetBelow(i, j, m, n - 1);
      SameLevelAt(init, ys, mk, i, j);
      assert init[i] == xs[i];
    } else {
      assert i * m + j - |prefix| == j;
    }
  }

  /** Row `i` of an `n`-row table with rows of length `m` starts inside it. */
  lemma RowOffsetBelow(i: nat, j: nat, m: nat, n: nat)
    requires i < n && j < m
    ensures i * m + j < n * m
  {
    MulMono(i + 1, n, m);
    assert (i + 1) * m == i * m + m;
  }

  /** Reshaped to `a.shape + b.shape`, the product holds at multi-index
      `ia + ib` the pair of `a`'s member at `ia` and `b`'s member at `ib`. */
  lemma SameLevelAtMultiIndex<T>(a: NdArray<T>, b: NdArray<T>, mk: (T, T) -> T, ia: seq<nat>, ib: seq<nat>)
    requires WellShaped(a) && WellShaped(b) && InBounds(ia, a.shape) && InBounds(ib, b.shape)
    ensures InBounds(ia + ib, a.shape + b.shape)
    ensures Ravel(ia, a.shape) < |a.flat| && Ravel(ib, b.shape) < |b.flat|
    ensures Ravel(ia + ib, a.shape + b.shape) < |SameLevelPairs(a.flat, b.flat, mk)|
    ensures SameLevelPairs(a.flat, b.flat, mk)[Ravel(ia + ib, a.shape + b.shape)] ==
      mk(a.flat[Ravel(ia, a.shape)], b.flat[Ravel(ib, b.shape)])
  {
    RavelBelow(ia, a.shape);
    RavelBelow(ib, b.shape);
    RavelConcat(ia, a.shape, ib, b.shape);
    SameLevelAt(a.flat, b.flat, mk, Ravel(ia, a.shape), Ravel(ib, b.shape));
  }

  lemma {:induction false} RavelConcat(ia: seq<nat>, sa: seq<nat>, ib: seq<nat>, sb: seq<nat>)
    requires |ia| == |sa| && |ib| == |sb|
    ensures Ravel(ia + ib, sa + sb) == Ravel(ia, sa) * Product(sb) + Ravel(ib, sb)
  {
    if |sb| == 0 {
      assert ia + ib == ia && sa + sb == sa;
    } else {
      var ib', sb' := ib[..|ib| - 1], sb[..|sb| - 1];
      assert (ia + ib)[..|ia + ib| - 1] == ia + ib';
      assert (sa + sb)[..|sa + sb| - 1] == sa + sb';
      RavelConcat(ia, sa, ib', sb');
      var last: int := sb[|sb| - 1];
      var a: int, p: int, r: int, x: int := Ravel(ia, sa), Product(sb'), Ravel(ib', sb'), ib[|ib| - 1];
      assert Ravel(ia + ib, sa + sb) == (a * p + r) * last + x;
      assert Product(sb) == p * last && Ravel(ib, sb) == r * last + x;
      ShiftDigit(a, p, r, last, x);
    }
  }

  /** Appending a digit to both parts of a mixed-radix number. */
  lemma ShiftDigit(a: int, p: int, r: int, last: int, x: int)
    ensures (a * p + r) * last + x == a * (p * last) + (r * last + x)
  {
    assert (a * p + r) * last == a * p * last + r * last;
    assert a * p * last == a * (p * last);
  }

  /** The nested loops of `same_level_member_pairs`. */
  method SameLevelMemberPairs<T>(xs: seq<T>, ys: seq<T>, mk: (T, T) -> T) returns (r: seq<T>)
    ensures r == SameLevelPairs(xs, ys, mk)
  {
    r := [];
    for i := 0 to |xs|
      invariant r == SameLevelPairs(xs[..i], ys, mk)
    {
      ghost var before := r;
      for j := 0 to |ys|
        invariant r == before + PairRow(xs[i], ys[..j], mk)
      {
        assert PairRow(xs[i], ys[..j + 1], mk) == PairRow(xs[i], ys[..j], mk) + [mk(xs[i], ys[j])];
        r := r + [mk(xs[i], ys[j])];
      }
      assert ys[..|ys|] == ys;
      assert xs[..i + 1][..i] == xs[..i];
    }
    assert xs[..|xs|] == xs;
  }

  // ---------------------------------------------------------------- node.py nodes

  /** A node of the first version: an atomic node (by id) or a pair. */
  datatype Node = Atom(id: nat) | Pair(a: Node, b: Node)

  function Size(n: Node): nat {
    match n
    case Atom(_) => 1
    case Pair(a, b) => 1 + Size(a) + Size(b)
  }

  /** The atomic nodes a node is built from. */
  function Leaves(n: Node): set<nat> {
    match n
    case Atom(x) => {x}
    case Pair(a, b) => Leaves(a) + Leaves(b)
  }

  /** `representation`: an atomic node stands for itself; a pair for its child
      operand when the other operand is its parent, and otherwise for both. */
  function Rep(w: World, n: Node): (r: set<nat>)
    ensures r != {} && r <= Leaves(n)
    decreases Size(n), 1
  {
    match n
    case Atom(x) => {x}
    case Pair(a, b) =>
      if IsParentTo(w, b, a) then Rep(w, a)
      else if IsParentTo(w, a, b) then Rep(w, b)
      else Rep(w, a) + Rep(w, b)
  }

  /** `get_parents`: an atomic node's parents; for a pair, the parents of its
      representation groups, plus those groups when there are several. */
  function Parents(w: World, n: Node): (r: set<nat>)
    ensures n.Pair? ==> forall g, p | g in Rep(w, n) && p in w(g).parents :: p in r
    ensures n.Pair? && |Rep(w, n)| > 1 ==> Rep(w, n) <= r
    decreases Size(n), 2
  {
    match n
    case Atom(y) => w(y).parents
    case Pair(_, _) =>
      var rep := Rep(w, n);
      var inherited := set g, p | g in rep && p in w(g).parents :: p;
      if |rep| > 1 then inherited + rep else inherited
  }

  /** `is_parent_to`. */
  predicate IsParentTo(w: World, n: Node, other: Node)
    decreases Size(n) + Size(other), 3
  {
    match n
    case Atom(x) => x in Parents(w, other)
    case Pair(a, b) =>
      if Rep(w, n) == Rep(w, other) then false
      else if IsParentTo(w, a, b) then IsParentTo(w, b, other)
      else if IsParentTo(w, b, a) then IsParentTo(w, a, other)
      else IsParentTo(w, a, other) || IsParentTo(w, b, other)
  }

  /** A pair is never a parent of a node with the same representation. */
  lemma PairNotParentOfSameRep(w: World, n: Node, other: Node)
    requires n.Pair? && Rep(w, n) == Rep(w, other)
    ensures !IsParentTo(w, n, other)
  {
  }

  /** A pair whose first operand is a one-way parent of its second behaves as the
      second: it has its representation and its children. */
  lemma NestedPairActsAsChild(w: World, a: Node, b: Node, other: Node)
    requires IsParentTo(w, a, b) && !IsParentTo(w, b, a)
    ensures Rep(w, Pair(a, b)) == Rep(w, b)
    ensures IsParentTo(w, Pair(a, b), other) <==> Rep(w, b) != Rep(w, other) && IsParentTo(w, b, other)
  {
  }

  /** Every representation group of a pair, and every parent of one, is a parent
      of the pair, the groups themselves only when there are several. */
  lemma PairParents(w: World, n: Node, g: nat)
    requires n.Pair? && g in Rep(w, n)
    ensures |Rep(w, n)| > 1 ==> IsParentTo(w, Atom(g), n)
    ensures forall p | p in w(g).parents :: IsParentTo(w, Atom(p), n)
  {
  }

  /** `get_children` of a pair as written: `set().intersection(...)` starts from
      the empty set, so the result is always empty. */
  function ChildrenAsWritten(w: World, n: Node): (r: set<nat>)
    ensures n.Pair? ==> r == {}
  {
    match n
    case Atom(y) => w(y).children
    case Pair(_, _) =>
      var rep := Rep(w, n);
      var common := set g, c | g in rep && c in w(g).children && (forall h | h in rep :: c in w(h).children) :: c;
      {} * common
  }

  /** `get_children` as evidently intended: the children shared by all the
      representation groups of a pair. */
  function Children(w: World, n: Node): (r: set<nat>)
    ensures n.Pair? ==> forall c :: c in r <==> forall g | g in Rep(w, n) :: c in w(g).children
  {
    match n
    case Atom(y) => w(y).children
    case Pair(_, _) =>
      var rep := Rep(w, n);
      var g0 :| g0 in rep;
      set c | c in w(g0).children && forall h | h in rep :: c in w(h).children
  }

  /** As written, a pair has no children even when both its groups share one. */
  lemma ChildrenAsWrittenLosesSharedChild()
    ensures var w := SharedChildWorld;
      Children(w, Pair(Atom(0), Atom(1))) == {2} && ChildrenAsWritten(w, Pair(Atom(0), Atom(1))) == {}
  {
    var w := SharedChildWorld;
    var n := Pair(Atom(0), Atom(1));
    assert !IsParentTo(w, Atom(1), Atom(0)) && !IsParentTo(w, Atom(0), Atom(1));
    assert Rep(w, n) == {0, 1};
  }

  /** Two unrelated atomic nodes 0 and 1 that share the child 2. */
  function SharedChildWorld(x: nat): AtomInfo {
    AtomInfo("", [], {}, if x < 2 then {2} else {}, {})
  }

  /** `reduced_repr`: the smallest operand with the same representation. */
  function ReducedRepr(w: World, n: Node): (r: Node)
    ensures Size(r) <= Size(n)
  {
    match n
    case Atom(_) => n
    case Pair(a, b) =>
      if Rep(w, n) == Rep(w, a) then ReducedRepr(w, a)
      else if Rep(w, n) == Rep(w, b) then ReducedRepr(w, b)
      else n
  }

  /** Reducing keeps the representation and is idempotent. */
  lemma {:induction false} ReducedReprKeepsRep(w: World, n: Node)
    ensures Rep(w, ReducedRepr(w, n)) == Rep(w, n)
    ensures ReducedRepr(w, ReducedRepr(w, n)) == ReducedRepr(w, n)
  {
    match n
    case Atom(_) =>
    case Pair(a, b) =>
      if Rep(w, n) == Rep(w, a) {
        ReducedReprKeepsRep(w, a);
      } else if Rep(w, n) == Rep(w, b) {
        ReducedReprKeepsRep(w, b);
      }
  }

  /** `get_members`: an atomic node's member array, or for a pair one of the
      three strategies (no members, equal representations, parent and child,
      same level). `None` where `next` raises StopIteration, in this pair or
      in an operand whose members are asked for; `b`'s are not asked for when
      `a` has members and the representations agree. */
  function Members(w: World, n: Node): (r: Option<NdArray<Node>>)
    ensures r.Some? ==> WellShaped(r.value)
  {
    match n
    case Atom(x) =>
      var ms := w(x).members;
      assert Product([|ms|]) == |ms| by {
        assert [|ms|][..0] == [];
      }
      Some(NdArray(seq(|ms|, i requires 0 <= i < |ms| => Atom(ms[i])), [|ms|]))
    case Pair(a, b) =>
      var ma, mb := Members(w, a), Members(w, b);
      if ma.None? then None
      // `b` is only asked for its members when `a` has none or the
      // representations differ
      else if Len0(ma.value) > 0 && Rep(w, a) == Rep(w, b) then ma
      else if mb.None? then None
      else if Len0(ma.value) == 0 && Len0(mb.value) == 0 then
        assert Product([0]) == 0 by {
          assert [0][..0] == [];
        }
        Some(NdArray([], [0]))
      else if Rep(w, a) == Rep(w, b) then ma
      else if IsParentTo(w, a, b) || IsParentTo(w, b, a) then
        var aParent := IsParentTo(w, a, b);
        var parent := if aParent then ma.value else mb.value;
        var child := if aParent then mb.value else ma.value;
        var pairs := ParentChildPairs(parent.flat, child.flat, (p, c) => IsParentTo(w, p, c), (p, c) => Pair(p, c));
        if pairs.None? then None else Some(NdArray(pairs.value, child.shape))
      else
        ProductConcat(ma.value.shape, mb.value.shape);
        Some(NdArray(SameLevelPairs(ma.value.flat, mb.value.flat, (x, y) => Pair(x, y)), ma.value.shape + mb.value.shape))
  }

  /** Atom 0 is a parent of atom 1, but 0's member 20 is no parent of 1's
      member 10. */
  function UnmatchedChildWorld(x: nat): AtomInfo {
    AtomInfo("", if x == 0 then [20] else if x == 1 then [10] else [], if x == 1 then {0} else {}, {}, {})
  }

  /** The pair `(1, (1, 0))` takes atom 1's members although the inner pair
      `(1, 0)` has none (its `next` raises StopIteration): that pair's members
      are never asked for, as both operands stand for atom 1. */
  lemma MembersSkipUnneededOperand()
    ensures var w := UnmatchedChildWorld;
      Members(w, Pair(Atom(1), Atom(0))).None? &&
      Members(w, Pair(Atom(1), Pair(Atom(1), Atom(0)))) == Members(w, Atom(1)) &&
      Members(w, Atom(1)).Some?
  {
    var w := UnmatchedChildWorld;
    assert IsParentTo(w, Atom(0), Atom(1)) && !IsParentTo(w, Atom(1), Atom(0));
    assert Rep(w, Pair(Atom(1), Atom(0))) == {1};
    assert !IsParentTo(w, Atom(20), Atom(10));
    assert Len0(Members(w, Atom(1)).value) == 1;
  }

  // ---------------------------------------------------------------- map_to

  datatype MapResult =
    | Mapping(axes: seq<seq<nat>>)
    /** ValueError: mapping from parent to child is not applicable. */
    | ParentToChild
    /** ValueError: mapping between unrelated nodes is not applicable. */
    | Unrelated
    /** A member array could not be built, or argmax ran over no members. */
    | Failed

  function ProperSuperset(x: set<nat>, y: set<nat>): bool {
    y < x
  }

  /** The overlap score when both nodes have the same representation:
      `om.representation().intersection(sm.representation())`. */
  function RepOverlap(w: World, x: Node, y: Node): set<nat> {
    Rep(w, x) * Rep(w, y)
  }

  function OverlapScore(w: World): (Node, Node) -> set<nat> {
    (x: Node, y: Node) => RepOverlap(w, x, y)
  }

  /** The score when `other` is the parent:
      `len(om.representation().intersection(sm.get_parents()))`. */
  function ParentOverlap(w: World, sm: Node, om: Node): int {
    |Rep(w, om) * Parents(w, sm)|
  }

  function ParentScore(w: World): (Node, Node) -> int {
    (x: Node, y: Node) => ParentOverlap(w, x, y)
  }

  /** `map_to`: with equal representations each member is mapped to the other's
      member with the best representation overlap; mapping towards a child or an
      unrelated node is refused; towards a parent each member is mapped to the
      parent member that shares most of its parents. */
  function MapTo(w: World, n: Node, other: Node): (r: MapResult)
    ensures r == ParentToChild <==> Rep(w, n) != Rep(w, other) && IsParentTo(w, n, other)
    ensures r == Unrelated <==> Rep(w, n) != Rep(w, other) && !IsParentTo(w, n, other) && !IsParentTo(w, other, n)
    ensures r.Mapping? ==> Members(w, n).Some? && Members(w, other).Some?
    ensures r.Mapping? ==> |r.axes| == |Members(w, other).value.shape|
    ensures r.Mapping? ==> forall d | 0 <= d < |r.axes| ::
      |r.axes[d]| == |Members(w, n).value.flat| &&
      forall i | 0 <= i < |r.axes[d]| :: r.axes[d][i] < Members(w, other).value.shape[d]
  {
    if Rep(w, n) != Rep(w, other) && IsParentTo(w, n, other) then ParentToChild
    else if Rep(w, n) != Rep(w, other) && !IsParentTo(w, other, n) then Unrelated
    else
      var mine, theirs := Members(w, n), Members(w, other);
      if mine.None? || theirs.None? then Failed
      else
        var m := if Rep(w, n) == Rep(w, other)
          then MappingSpec(mine.value.flat, theirs.value.flat, theirs.value.shape, OverlapScore(w), ProperSuperset)
          else MappingSpec(mine.value.flat, theirs.value.flat, theirs.value.shape, ParentScore(w), Greater);
        if m.None? then Failed else Mapping(m.value)
  }

  /** With exactly one non-empty overlap, argmax picks its position. */
  lemma {:induction false} ArgMaxSoleOverlap(scores: seq<set<nat>>, i: nat, n: nat)
    requires i < n <= |scores| && scores[i] != {}
    requires forall j | 0 <= j < |scores| && j != i :: scores[j] == {}
    ensures ArgMaxPrefix(scores, ProperSuperset, n) == i
  {
    if n > i + 1 {
      ArgMaxSoleOverlap(scores, i, n - 1);
    } else if i > 0 {
      var k := ArgMaxPrefix(scores, ProperSuperset, n - 1);
      assert scores[k] == {};
    }
  }

  /** The member array of an atomic node. */
  function AtomMembers(ms: seq<nat>): (r: seq<Node>)
    ensures |r| == |ms| && forall i | 0 <= i < |ms| :: r[i] == Atom(ms[i])
  {
    seq(|ms|, i requires 0 <= i < |ms| => Atom(ms[i]))
  }

  lemma RavelOneAxis(idx: seq<nat>, n: nat)
    requires |idx| == 1
    ensures Ravel(idx, [n]) == idx[0]
  {
    assert idx[..0] == [] && [n][..0] == [];
  }

  /** A distinct atomic member overlaps only with itself. */
  lemma SelfOverlapAt(w: World, ms: seq<nat>, i: nat)
    requires Distinct(ms) && i < |ms|
    ensures ArgMax(Scores(AtomMembers(ms)[i], AtomMembers(ms), OverlapScore(w)), ProperSuperset) == i
  {
    var flat := AtomMembers(ms);
    var scores := Scores(flat[i], flat, OverlapScore(w));
    forall j | 0 <= j < |scores| && j != i
      ensures scores[j] == {}
    {
      assert ms[i] != ms[j];
    }
    assert ms[i] in scores[i];
    ArgMaxSoleOverlap(scores, i, |scores|);
  }

  /** Distinct atomic members, matched against themselves by representation
      overlap, map to themselves. */
  lemma SelfOverlapMapping(w: World, ms: seq<nat>)
    requires Distinct(ms)
    ensures Product([|ms|]) == |ms|
    ensures MappingSpec(AtomMembers(ms), AtomMembers(ms), [|ms|], OverlapScore(w), ProperSuperset) == Some([Range(|ms|)])
  {
    assert [|ms|][..0] == [];
    var flat := AtomMembers(ms);
    var r := MappingSpec(flat, flat, [|ms|], OverlapScore(w), ProperSuperset);
    assert r.Some? && |r.value| == 1;
    forall i | 0 <= i < |ms|
      ensures r.value[0][i] == i
    {
      var idx := Column(r.value, i);
      RavelOneAxis(idx, |ms|);
      SelfOverlapAt(w, ms, i);
    }
    assert r.value[0] == Range(|ms|);
    assert r.value == [r.value[0]];
  }

  /** Mapping an atomic node with distinct members onto itself maps every member
      to itself. */
  lemma MapToSelfIsIdentity(w: World, x: nat)
    requires Distinct(w(x).members)
    ensures MapTo(w, Atom(x), Atom(x)) == Mapping([Range(|w(x).members|)])
  {
    var ms := w(x).members;
    assert Members(w, Atom(x)) == Some(NdArray(AtomMembers(ms), [|ms|]));
    SelfOverlapMapping(w, ms);
  }
}
