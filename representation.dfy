/** sakkara/relation/representation.py: a Representation is a set of nodes
    that is reduced lazily to the nodes that carry the information level of a
    group. Reduction drops every node that is a parent of a node of the set
    and then, walking one listing of the survivors, drops the later twins of
    every node still kept. The relations between nodes (`is_parent_to`,
    `is_twin_to`) and the hash that `__lt__` compares are fixed functions of the
    nodes here. */
module Representations {
  import opened Seqs

  /** `l` lists every element of `s` exactly once (what `list(s)` returns, in
      the set's iteration order). */
  predicate Enumerates<N(==)>(l: seq<N>, s: set<N>) {
    Distinct(l) && (forall x | x in l :: x in s) && (forall x | x in s :: x in l)
  }

  /** Sorting a listing of a set lists the same set. */
  lemma SortedListing<N>(l: seq<N>, s: set<N>, key: N -> int)
    requires Enumerates(l, s)
    ensures Enumerates(SortBy(l, key), s)
  {
    var r := SortBy(l, key);
    SortByDistinct(l, key);
    assert forall x :: x in r <==> x in multiset(r);
    assert forall x :: x in l <==> x in multiset(l);
  }

  /** A listing is as long as the set it lists. */
  lemma {:induction false} EnumeratesCard<N>(l: seq<N>, s: set<N>)
    requires Enumerates(l, s)
    ensures |l| == |s|
  {
    if |l| == 0 {
      assert s == {};
    } else {
      var init, last := l[..|l| - 1], l[|l| - 1];
      assert l == init + [last];
      assert Enumerates(init, s - {last});
      EnumeratesCard(init, s - {last});
    }
  }

  /** No node of `s` is a parent of a node of `s`. */
  predicate NoParentPairs<N>(s: set<N>, isParentTo: (N, N) -> bool) {
    forall x, y | x in s && y in s :: !isParentTo(x, y)
  }

  /** The first step of `reduce`: the nodes that are parent to no node of the
      set (a node that is its own parent is dropped too). */
  function ParentFree<N>(s: set<N>, isParentTo: (N, N) -> bool): set<N> {
    set x | x in s && forall y | y in s :: !isParentTo(x, y)
  }

  /** `has_twin[i]`: the positions after `j - 1` whose node `l[i]` is a twin to,
      in increasing order. */
  function LaterTwinsFrom<N>(l: seq<N>, isTwinTo: (N, N) -> bool, i: nat, j: nat): (r: seq<nat>)
    requires i < |l|
    ensures forall k :: k in r <==> j <= k < |l| && i < k && isTwinTo(l[i], l[k])
    decreases |l| - j
  {
    if j >= |l| then []
    else if i < j && isTwinTo(l[i], l[j]) then [j] + LaterTwinsFrom(l, isTwinTo, i, j + 1)
    else LaterTwinsFrom(l, isTwinTo, i, j + 1)
  }

  function LaterTwins<N>(l: seq<N>, isTwinTo: (N, N) -> bool, i: nat): (r: seq<nat>)
    requires i < |l|
    ensures forall k :: k in r <==> i < k < |l| && isTwinTo(l[i], l[k])
  {
    LaterTwinsFrom(l, isTwinTo, i, i + 1)
  }

  /** `index[js] = False`. */
  function Cleared(f: seq<bool>, js: seq<nat>): (r: seq<bool>)
    ensures |r| == |f|
  {
    seq(|f|, k requires 0 <= k < |f| => if k in js then false else f[k])
  }

  /** The boolean `index` array after the first `n` rounds of the twin loop. */
  function Flags<N>(l: seq<N>, isTwinTo: (N, N) -> bool, n: nat): (f: seq<bool>)
    requires n <= |l|
    ensures |f| == |l|
  {
    if n == 0 then seq(|l|, _ => true)
    else
      var f := Flags(l, isTwinTo, n - 1);
      var ts := LaterTwins(l, isTwinTo, n - 1);
      if |ts| > 0 && f[n - 1] then Cleared(f, ts) else f
  }

  /** Whether position `j` of the listing survives the twin loop. */
  predicate Survives<N>(l: seq<N>, isTwinTo: (N, N) -> bool, j: nat)
    requires j < |l|
  {
    Flags(l, isTwinTo, |l|)[j]
  }

  /** The node set `reduce` leaves, for the listing `l` of the parent-free nodes. */
  function Reduced<N(==)>(s: set<N>, l: seq<N>, isParentTo: (N, N) -> bool, isTwinTo: (N, N) -> bool): set<N>
    requires Enumerates(l, ParentFree(s, isParentTo))
  {
    set i | 0 <= i < |l| && Survives(l, isTwinTo, i) :: l[i]
  }

  /** A round only clears positions after its own, so position `j` is final once
      round `j` has started. */
  lemma {:induction false} FlagsSettled<N>(l: seq<N>, isTwinTo: (N, N) -> bool, n: nat, j: nat)
    requires j < n <= |l|
    ensures Flags(l, isTwinTo, n)[j] == Flags(l, isTwinTo, j)[j]
  {
    if n - 1 > j {
      FlagsSettled(l, isTwinTo, n - 1, j);
    }
  }

  /** No node kept by its own round among the first `n` is a twin to `l[j]`. */
  predicate NoKeptTwinBefore<N>(l: seq<N>, isTwinTo: (N, N) -> bool, n: nat, j: nat)
    requires n <= j < |l|
  {
    forall i | 0 <= i < n :: Flags(l, isTwinTo, i)[i] ==> !isTwinTo(l[i], l[j])
  }

  /** One round of the twin loop clears a later position exactly when the
      round's node is still set and is a twin to it. */
  lemma FlagsRound<N>(l: seq<N>, isTwinTo: (N, N) -> bool, n: nat, j: nat)
    requires 0 < n <= j < |l|
    ensures Flags(l, isTwinTo, n)[j] ==
      (Flags(l, isTwinTo, n - 1)[j] && !(Flags(l, isTwinTo, n - 1)[n - 1] && isTwinTo(l[n - 1], l[j])))
  {
    var f := Flags(l, isTwinTo, n - 1);
    var ts := LaterTwins(l, isTwinTo, n - 1);
    assert j in ts <==> isTwinTo(l[n - 1], l[j]);
    if |ts| > 0 && f[n - 1] {
      assert Flags(l, isTwinTo, n) == Cleared(f, ts);
    } else {
      assert Flags(l, isTwinTo, n) == f;
      assert !(f[n - 1] && j in ts);
    }
  }

  /** The kept nodes before round `n` are those before round `n - 1` and, when
      it was still set, the node of round `n - 1`. */
  lemma NoKeptTwinBeforeStep<N>(l: seq<N>, isTwinTo: (N, N) -> bool, n: nat, j: nat)
    requires 0 < n <= j < |l|
    ensures NoKeptTwinBefore(l, isTwinTo, n, j) <==>
      NoKeptTwinBefore(l, isTwinTo, n - 1, j) && (Flags(l, isTwinTo, n - 1)[n - 1] ==> !isTwinTo(l[n - 1], l[j]))
  {
    if NoKeptTwinBefore(l, isTwinTo, n - 1, j) && (Flags(l, isTwinTo, n - 1)[n - 1] ==> !isTwinTo(l[n - 1], l[j])) {
      forall i | 0 <= i < n && Flags(l, isTwinTo, i)[i] ensures !isTwinTo(l[i], l[j]) {
        if i < n - 1 {
          assert NoKeptTwinBefore(l, isTwinTo, n - 1, j);
        }
      }
    }
  }

  /** Before round `j`, position `j` is still set exactly when no earlier kept
      node is a twin to it. */
  lemma {:induction false} FlagsPending<N>(l: seq<N>, isTwinTo: (N, N) -> bool, n: nat, j: nat)
    requires n <= j < |l|
    ensures Flags(l, isTwinTo, n)[j] <==> NoKeptTwinBefore(l, isTwinTo, n, j)
  {
    if n > 0 {
      FlagsPending(l, isTwinTo, n - 1, j);
      FlagsRound(l, isTwinTo, n, j);
      NoKeptTwinBeforeStep(l, isTwinTo, n, j);
      var kept, twin := Flags(l, isTwinTo, n - 1)[n - 1], isTwinTo(l[n - 1], l[j]);
      assert Flags(l, isTwinTo, n)[j] == (Flags(l, isTwinTo, n - 1)[j] && !(kept && twin));
      assert NoKeptTwinBefore(l, isTwinTo, n, j) == (NoKeptTwinBefore(l, isTwinTo, n - 1, j) && (kept ==> !twin));
    } else {
      assert Flags(l, isTwinTo, 0)[j];
    }
  }

  /** A node of the listing survives exactly when no earlier survivor is a twin
      to it: twin elimination keeps the earliest node and drops its later twins. */
  lemma SurvivesIff<N>(l: seq<N>, isTwinTo: (N, N) -> bool, j: nat)
    requires j < |l|
    ensures Survives(l, isTwinTo, j) <==>
      forall i | 0 <= i < j :: Survives(l, isTwinTo, i) ==> !isTwinTo(l[i], l[j])
  {
    FlagsSettled(l, isTwinTo, |l|, j);
    FlagsPending(l, isTwinTo, j, j);
    forall i | 0 <= i < j
      ensures Survives(l, isTwinTo, i) == Flags(l, isTwinTo, i)[i]
    {
      FlagsSettled(l, isTwinTo, |l|, i);
    }
    assert NoKeptTwinBefore(l, isTwinTo, j, j) <==>
      forall i | 0 <= i < j :: Survives(l, isTwinTo, i) ==> !isTwinTo(l[i], l[j]);
  }

  /** Without parents or twins among the nodes, reduction keeps them all. */
  lemma ReducedKeepsAll<N>(s: set<N>, l: seq<N>, isParentTo: (N, N) -> bool, isTwinTo: (N, N) -> bool)
    requires ParentFree(s, isParentTo) == s && Enumerates(l, s)
    requires forall i, j | 0 <= i < j < |l| :: !isTwinTo(l[i], l[j])
    ensures Reduced(s, l, isParentTo, isTwinTo) == s
  {
    FlagsAllSet(l, isTwinTo, |l|);
    forall x | x in s ensures x in Reduced(s, l, isParentTo, isTwinTo) {
      var k :| 0 <= k < |l| && l[k] == x;
      assert Survives(l, isTwinTo, k);
    }
  }

  /** Reduction only removes nodes, and no remaining node is a parent of a
      remaining node. */
  lemma ReducedSubsetNoParents<N>(s: set<N>, l: seq<N>, isParentTo: (N, N) -> bool, isTwinTo: (N, N) -> bool)
    requires Enumerates(l, ParentFree(s, isParentTo))
    ensures Reduced(s, l, isParentTo, isTwinTo) <= ParentFree(s, isParentTo) <= s
    ensures NoParentPairs(Reduced(s, l, isParentTo, isTwinTo), isParentTo)
  {
  }

  /** Every parent-free node that reduction drops has an earlier kept twin, and
      no kept node is a twin to a later kept node. */
  lemma ReducedKeepsEarliestTwin<N>(s: set<N>, l: seq<N>, isParentTo: (N, N) -> bool, isTwinTo: (N, N) -> bool)
    requires Enumerates(l, ParentFree(s, isParentTo))
    ensures forall j | 0 <= j < |l| && l[j] !in Reduced(s, l, isParentTo, isTwinTo) ::
      exists i :: 0 <= i < j && l[i] in Reduced(s, l, isParentTo, isTwinTo) && isTwinTo(l[i], l[j])
    ensures forall i, j | 0 <= i < j < |l| && l[i] in Reduced(s, l, isParentTo, isTwinTo) && l[j] in Reduced(s, l, isParentTo, isTwinTo) ::
      !isTwinTo(l[i], l[j])
  {
    var r := Reduced(s, l, isParentTo, isTwinTo);
    forall j | 0 <= j < |l| ensures l[j] in r <==> Survives(l, isTwinTo, j) {
      if l[j] in r {
        var k :| 0 <= k < |l| && Survives(l, isTwinTo, k) && l[k] == l[j];
        assert k == j;
      }
    }
    forall j | 0 <= j < |l| ensures Survives(l, isTwinTo, j) <==>
      forall i | 0 <= i < j :: Survives(l, isTwinTo, i) ==> !isTwinTo(l[i], l[j])
    {
      SurvivesIff(l, isTwinTo, j);
    }
  }

  /** `is_twin_to` is symmetric on `s`. */
  predicate TwinSymmetric<N>(s: set<N>, isTwinTo: (N, N) -> bool) {
    forall x, y | x in s && y in s :: isTwinTo(x, y) == isTwinTo(y, x)
  }

  /** With a symmetric twin relation, no two distinct remaining nodes are twins,
      whatever listing was walked. */
  lemma ReducedTwinFree<N>(s: set<N>, l: seq<N>, isParentTo: (N, N) -> bool, isTwinTo: (N, N) -> bool)
    requires Enumerates(l, ParentFree(s, isParentTo))
    requires TwinSymmetric(s, isTwinTo)
    ensures forall x, y | x in Reduced(s, l, isParentTo, isTwinTo) && y in Reduced(s, l, isParentTo, isTwinTo) && x != y ::
      !isTwinTo(x, y)
  {
    var r := Reduced(s, l, isParentTo, isTwinTo);
    ReducedKeepsEarliestTwin(s, l, isParentTo, isTwinTo);
    forall x, y | x in r && y in r && x != y ensures !isTwinTo(x, y) {
      var i :| 0 <= i < |l| && l[i] == x;
      var j :| 0 <= j < |l| && l[j] == y;
      assert x in ParentFree(s, isParentTo) && y in ParentFree(s, isParentTo);
      if i < j {
        assert !isTwinTo(l[i], l[j]);
      } else {
        assert j < i;
        assert !isTwinTo(l[j], l[i]);
        assert isTwinTo(y, x) == isTwinTo(x, y);
      }
    }
  }

  /** Without twins among the listed nodes every position survives. */
  lemma {:induction false} FlagsAllSet<N>(l: seq<N>, isTwinTo: (N, N) -> bool, n: nat)
    requires n <= |l|
    requires forall i, j | 0 <= i < j < |l| :: !isTwinTo(l[i], l[j])
    ensures Flags(l, isTwinTo, n) == seq(|l|, _ => true)
  {
    if n > 0 {
      FlagsAllSet(l, isTwinTo, n - 1);

    }
  }

  /** Reducing a reduced set removes nothing, for any listing of it, when the twin
      relation is symmetric: `reduce` is idempotent. */
  lemma ReduceIdempotent<N>(s: set<N>, l: seq<N>, l': seq<N>, isParentTo: (N, N) -> bool, isTwinTo: (N, N) -> bool)
    requires Enumerates(l, ParentFree(s, isParentTo))
    requires TwinSymmetric(s, isTwinTo)
    requires Enumerates(l', ParentFree(Reduced(s, l, isParentTo, isTwinTo), isParentTo))
    ensures ParentFree(Reduced(s, l, isParentTo, isTwinTo), isParentTo) == Reduced(s, l, isParentTo, isTwinTo)
    ensures Reduced(Reduced(s, l, isParentTo, isTwinTo), l', isParentTo, isTwinTo) == Reduced(s, l, isParentTo, isTwinTo)
  {
    var r := Reduced(s, l, isParentTo, isTwinTo);
    ReducedSubsetNoParents(s, l, isParentTo, isTwinTo);
    assert ParentFree(r, isParentTo) == r;
    ReducedTwinFree(s, l, isParentTo, isTwinTo);
    forall i, j | 0 <= i < j < |l'| ensures !isTwinTo(l'[i], l'[j]) {
      assert l'[i] in r && l'[j] in r && l'[i] != l'[j];
    }
    FlagsAllSet(l', isTwinTo, |l'|);
    var r' := Reduced(r, l', isParentTo, isTwinTo);
    forall x | x in r ensures x in r' {
      var k :| 0 <= k < |l'| && l'[k] == x;
      assert Survives(l', isTwinTo, k);
    }
  }

  /** A singleton is reduced to itself unless its node is its own parent. */
  lemma ReduceSingleton<N>(x: N, l: seq<N>, isParentTo: (N, N) -> bool, isTwinTo: (N, N) -> bool)
    requires Enumerates(l, ParentFree({x}, isParentTo))
    ensures Reduced({x}, l, isParentTo, isTwinTo) == if isParentTo(x, x) then {} else {x}
  {
    if !isParentTo(x, x) {
      assert x in l;
      EnumeratesCard(l, {x});
      assert l == [x];
      assert Survives(l, isTwinTo, 0);
    } else {
      assert ParentFree({x}, isParentTo) == {};
      EnumeratesCard(l, {});
    }
  }

  /** `matches[r, c]` while round `i` of the matching loop in `__eq__` has
      written its first `j - i` positions: round `i` writes row `i` and column `i`
      from position `i` onwards with `remaining[i].is_twin_to(remaining[j])`, so
      cell `(r, c)` is written by round `min(r, c)` only. */
  predicate Written<N>(rem: seq<N>, isTwinTo: (N, N) -> bool, i: nat, j: nat, r: nat, c: nat)
    requires r < |rem| && c < |rem|
  {
    var lo := if r <= c then r else c;
    var hi := if r <= c then c else r;
    (lo < i || (lo == i && hi < j)) && isTwinTo(rem[lo], rem[hi])
  }

  /** The final match matrix, after `len(remaining) - 1` rounds. */
  predicate FinalMatch<N>(rem: seq<N>, isTwinTo: (N, N) -> bool, r: nat, c: nat)
    requires r < |rem| && c < |rem|
  {
    Written(rem, isTwinTo, |rem| - 1, 0, r, c)
  }

  /** The match matrix of `__eq__`: round `i` writes row `i` and column `i` from
      the diagonal onwards with the twin relation between the two nodes. */
  method MatchMatrix<N>(rem: seq<N>, isTwinTo: (N, N) -> bool) returns (matches: array2<bool>)
    requires |rem| > 0
    ensures fresh(matches) && matches.Length0 == |rem| && matches.Length1 == |rem|
    ensures forall r, c | 0 <= r < |rem| && 0 <= c < |rem| :: matches[r, c] == FinalMatch(rem, isTwinTo, r, c)
  {
    var n := |rem|;
    matches := new bool[n, n]((_, _) => false);
    for i := 0 to n - 1
      invariant forall r, c | 0 <= r < n && 0 <= c < n :: matches[r, c] == Written(rem, isTwinTo, i, 0, r, c)
      modifies matches
    {
      var nodeMatches := seq(n - i, d requires 0 <= d < n - i => isTwinTo(rem[i], rem[i + d]));
      for j := i to n
        invariant forall r, c | 0 <= r < n && 0 <= c < n :: matches[r, c] == Written(rem, isTwinTo, i, j, r, c)
        modifies matches
      {
        matches[i, j] := nodeMatches[j - i];
        matches[j, i] := nodeMatches[j - i];
      }
    }
  }

  /** Column `c` of the final match matrix has a true entry. */
  predicate ColumnMatched<N>(rem: seq<N>, isTwinTo: (N, N) -> bool, c: nat)
    requires c < |rem|
  {
    exists r | 0 <= r < |rem| :: FinalMatch(rem, isTwinTo, r, c)
  }

  /** The value of `self == other` for the reduced nodes `mine` of `self`, the
      nodes `theirs` of `other` and the listing `rem` of the nodes in exactly one
      of them: equal sets, or every column of the match matrix has a true entry. */
  predicate EqualsSpec<N(==)>(mine: set<N>, theirs: set<N>, rem: seq<N>, isTwinTo: (N, N) -> bool) {
    mine == theirs ||
    (|rem| > 0 && forall c | 0 <= c < |rem| :: ColumnMatched(rem, isTwinTo, c))
  }

  /** For a symmetric twin relation under which no node is its own twin, two
      different node sets compare equal exactly when every node in one set only
      has a twin among the other such nodes, whatever the listing. */
  lemma EqualsMeaning<N>(mine: set<N>, theirs: set<N>, rem: seq<N>, isTwinTo: (N, N) -> bool)
    requires Enumerates(rem, (mine - theirs) + (theirs - mine))
    requires TwinSymmetric((mine - theirs) + (theirs - mine), isTwinTo)
    requires forall x | x in rem :: !isTwinTo(x, x)
    ensures EqualsSpec(mine, theirs, rem, isTwinTo) <==>
      mine == theirs ||
      forall x | x in (mine - theirs) + (theirs - mine) ::
        exists y :: y in (mine - theirs) + (theirs - mine) && y != x && isTwinTo(x, y)
  {
    var d := (mine - theirs) + (theirs - mine);
    if mine != theirs {
      var n := |rem|;
      assert n > 0 by {
        var z :| z in d;
        assert z in rem;
      }
      if EqualsSpec(mine, theirs, rem, isTwinTo) {
        forall x | x in d ensures exists y :: y in d && y != x && isTwinTo(x, y) {
          var c :| 0 <= c < n && rem[c] == x;
          assert ColumnMatched(rem, isTwinTo, c);
          var r :| 0 <= r < n && FinalMatch(rem, isTwinTo, r, c);
          assert r != c;
          assert rem[r] in d && rem[r] != x && isTwinTo(x, rem[r]);
        }
      } else {
        var c :| 0 <= c < n && !ColumnMatched(rem, isTwinTo, c);
        var x := rem[c];
        forall y | y in d && y != x ensures !isTwinTo(x, y) {
          var r :| 0 <= r < n && rem[r] == y;
          assert !FinalMatch(rem, isTwinTo, r, c);
          assert r != c;
        }
        assert x in d;
        assert !(exists y :: y in d && y != x && isTwinTo(x, y));
      }
    }
  }

  /** `list(s)`: the elements of a set in some order. CPython's iteration order
      follows hashes and insertion history, so any listing is admissible. */
  method Enumerate<N(==)>(s: set<N>) returns (l: seq<N>)
    ensures Enumerates(l, s)
  {
    l := [];
    var rest := s;
    while rest != {}
      invariant rest <= s
      invariant Distinct(l)
      invariant forall x | x in l :: x in s && x !in rest
      invariant forall x | x in s :: x in l || x in rest
      decreases rest
    {
      var x :| x in rest;
      l := l + [x];
      rest := rest - {x};
    }
  }

  /** The `has_twin` and `index` loops of `reduce`: position i keeps its flag
      unless an earlier kept node is its twin. */
  method TwinFlags<N>(lnodes: seq<N>, isTwinTo: (N, N) -> bool) returns (index: array<bool>)
    ensures fresh(index) && index[..] == Flags(lnodes, isTwinTo, |lnodes|)
  {
    var n := |lnodes|;
    var hasTwin := seq(n, i requires 0 <= i < n => LaterTwins(lnodes, isTwinTo, i));
    index := new bool[n](_ => true);
    for i := 0 to n
      invariant index[..] == Flags(lnodes, isTwinTo, i)
    {
      TwinRound(index, lnodes, isTwinTo, i, hasTwin[i]);
    }
  }

  /** Round `i` of the twin loop: a node still kept clears its later twins. */
  method TwinRound<N>(index: array<bool>, lnodes: seq<N>, isTwinTo: (N, N) -> bool, i: nat, ts: seq<nat>)
    requires i < |lnodes| && index[..] == Flags(lnodes, isTwinTo, i)
    requires ts == LaterTwins(lnodes, isTwinTo, i)
    modifies index
    ensures index[..] == Flags(lnodes, isTwinTo, i + 1)
  {
    if |ts| > 0 && index[i] {
      assert forall k | 0 <= k < |ts| :: ts[k] in ts;
      ClearPositions(index, ts);
    }
  }

  /** `index[js] = False` on the array. */
  method ClearPositions(index: array<bool>, js: seq<nat>)
    requires forall k | 0 <= k < |js| :: js[k] < index.Length
    modifies index
    ensures index[..] == Cleared(old(index[..]), js)
  {
    ghost var before := index[..];
    for k := 0 to |js|
      invariant index[..] == Cleared(before, js[..k])
    {
      assert js[..k + 1] == js[..k] + [js[k]];
      index[js[k]] := false;
    }
    assert js[..|js|] == js;
  }

  class Representation<N(==)> {
    var nodes: set<N>
    /** True when `nodes` may hold nodes that `reduce` would drop. */
    var updated: bool
    /** `before_reduce`: the size of the node set when it was last set. */
    var beforeReduce: nat
    /** The listing of the parent-free nodes that the last `reduce` walked. */
    ghost var order: seq<N>
    const isParentTo: (N, N) -> bool
    const isTwinTo: (N, N) -> bool
    /** The hash that `__lt__` of the nodes compares. */
    const key: N -> int

    /** A representation that is not marked `updated` is reduced. */
    ghost predicate Valid()
      reads this
    {
      !updated ==> NoParentPairs(nodes, isParentTo)
    }

    /** `nodes` is what `reduce` leaves of `before` when it walks `order`. */
    ghost predicate ReducedFrom(before: set<N>)
      reads this
    {
      Enumerates(order, ParentFree(before, isParentTo)) &&
      nodes == Reduced(before, order, isParentTo, isTwinTo)
    }

    constructor (nodes: set<N>, isParentTo: (N, N) -> bool, isTwinTo: (N, N) -> bool, key: N -> int)
      ensures Valid()
      ensures this.nodes == nodes && updated && beforeReduce == |nodes|
      ensures this.isParentTo == isParentTo && this.isTwinTo == isTwinTo && this.key == key
    {
      this.nodes := nodes;
      updated := true;
      beforeReduce := |nodes|;
      order := [];
      this.isParentTo := isParentTo;
      this.isTwinTo := isTwinTo;
      this.key := key;
    }

    method Reduce()
      modifies this
      ensures Valid() && !updated
      ensures ReducedFrom(old(nodes))
      ensures beforeReduce == old(beforeReduce)
    {
      var kept := set x | x in nodes && forall y | y in nodes :: !isParentTo(x, y);
      assert kept == ParentFree(nodes, isParentTo);
      var lnodes := Enumerate(kept);
      var n := |lnodes|;
      var index := TwinFlags(lnodes, isTwinTo);
      ghost var old_nodes := nodes;
      nodes := set i | 0 <= i < n && index[i] :: lnodes[i];
      assert nodes == Reduced(old_nodes, lnodes, isParentTo, isTwinTo);
      order := lnodes;
      ReducedSubsetNoParents(old_nodes, lnodes, isParentTo, isTwinTo);
      updated := false;
    }

    /** Reduces first when the node set changed since the last reduction. */
    method Refresh()
      requires Valid()
      modifies this
      ensures Valid() && !updated && beforeReduce == old(beforeReduce)
      ensures old(updated) ==> ReducedFrom(old(nodes))
      ensures !old(updated) ==> nodes == old(nodes)
    {
      if updated {
        Reduce();
      }
    }

    /** `get_order`: the reduced nodes, sorted by their hash. */
    method GetOrder() returns (l: seq<N>)
      requires Valid()
      modifies this
      ensures Valid() && !updated && beforeReduce == old(beforeReduce)
      ensures old(updated) ==> ReducedFrom(old(nodes))
      ensures !old(updated) ==> nodes == old(nodes)
      ensures SortedByKey(l, key) && Enumerates(l, nodes)
      ensures NoParentPairs(nodes, isParentTo)
    {
      Refresh();
      var listed := Enumerate(nodes);
      l := SortBy(listed, key);
      SortedListing(listed, nodes, key);
    }

    /** `get_nodes` and `__iter__`: the reduced node set. */
    method GetNodes() returns (s: set<N>)
      requires Valid()
      modifies this
      ensures Valid() && !updated && s == nodes && beforeReduce == old(beforeReduce)
      ensures old(updated) ==> ReducedFrom(old(nodes))
      ensures !old(updated) ==> nodes == old(nodes)
      ensures NoParentPairs(s, isParentTo)
    {
      Refresh();
      s := nodes;
    }

    /** `__len__`: the size of the reduced node set. */
    method Length() returns (n: nat)
      requires Valid()
      modifies this
      ensures Valid() && !updated && n == |nodes| && beforeReduce == old(beforeReduce)
      ensures old(updated) ==> ReducedFrom(old(nodes))
      ensures !old(updated) ==> nodes == old(nodes)
    {
      Refresh();
      n := |nodes|;
    }

    /** `get_expected_len`. */
    method ExpectedLength() returns (n: nat)
      ensures n == beforeReduce
    {
      n := beforeReduce;
    }

    /** `__eq__`: reduces only `self`; equal node sets, or every node in the
        symmetric difference matched by a twin through the match matrix. */
    method Equals(other: Representation<N>) returns (eq: bool, ghost remaining: seq<N>)
      requires Valid()
      modifies this
      ensures Valid() && !updated && beforeReduce == old(beforeReduce)
      ensures old(updated) ==> ReducedFrom(old(nodes))
      ensures !old(updated) ==> nodes == old(nodes)
      ensures nodes != other.nodes ==> Enumerates(remaining, (nodes - other.nodes) + (other.nodes - nodes))
      ensures eq == EqualsSpec(nodes, other.nodes, remaining, isTwinTo)
      ensures nodes == other.nodes ==> eq
    {
      Refresh();
      eq := nodes == other.nodes;
      remaining := [];
      if !eq {
        var rem := Enumerate((nodes + other.nodes) - (nodes * other.nodes));
        assert (nodes + other.nodes) - (nodes * other.nodes) == (nodes - other.nodes) + (other.nodes - nodes);
        remaining := rem;
        var n := |rem|;
        assert n > 0 by {
          var z :| z in (nodes - other.nodes) + (other.nodes - nodes);
          assert z in rem;
        }
        var matches := MatchMatrix(rem, isTwinTo);
        var columnAny := seq(n, c requires 0 <= c < n reads matches => exists r | 0 <= r < n :: matches[r, c]);
        if forall c | 0 <= c < n :: columnAny[c] {
          eq := true;
        }
        forall c | 0 <= c < n ensures columnAny[c] == ColumnMatched(rem, isTwinTo, c) {
          assert forall r | 0 <= r < n :: matches[r, c] == FinalMatch(rem, isTwinTo, r, c);
        }
      }
    }

    /** `__copy__`: reduces, then wraps a copy of the reduced nodes in a new,
        not yet reduced representation. */
    method Copy() returns (r: Representation<N>)
      requires Valid()
      modifies this
      ensures Valid() && !updated && beforeReduce == old(beforeReduce)
      ensures old(updated) ==> ReducedFrom(old(nodes))
      ensures !old(updated) ==> nodes == old(nodes)
      ensures fresh(r) && r.Valid()
      ensures r.nodes == nodes && r.updated && r.beforeReduce == |nodes|
      ensures r.isParentTo == isParentTo && r.isTwinTo == isTwinTo && r.key == key
    {
      Refresh();
      r := new Representation(nodes, isParentTo, isTwinTo, key);
    }

    /** `set_nodes`: replaces the nodes without marking them for reduction. */
    method SetNodes(s: set<N>)
      modifies this
      ensures nodes == s && beforeReduce == |s|
      ensures updated == old(updated) && order == old(order)
      ensures updated ==> Valid()
    {
      nodes := s;
      beforeReduce := |nodes|;
    }

    method Add(x: N)
      modifies this
      ensures Valid() && updated
      ensures nodes == old(nodes) + {x} && beforeReduce == |nodes|
    {
      nodes := nodes + {x};
      updated := true;
      beforeReduce := |nodes|;
    }

    /** `update(*s)`, with the iterables given as one set. */
    method Update(s: set<N>)
      modifies this
      ensures Valid() && updated
      ensures nodes == old(nodes) + s && beforeReduce == |nodes|
    {
      nodes := nodes + s;
      beforeReduce := |nodes|;
      updated := true;
    }

    method Discard(x: N)
      modifies this
      ensures Valid() && updated
      ensures nodes == old(nodes) - {x} && beforeReduce == |nodes|
    {
      nodes := nodes - {x};
      beforeReduce := |nodes|;
      updated := true;
    }

    /** `pop`: marks the set updated before popping, so an empty set (KeyError,
        `None` here) is left marked and otherwise unchanged. */
    method Pop() returns (x: Option<N>)
      modifies this
      ensures Valid() && updated
      ensures x.None? <==> old(nodes) == {}
      ensures x.None? ==> nodes == old(nodes) && beforeReduce == old(beforeReduce)
      ensures x.Some? ==> x.value in old(nodes) && nodes == old(nodes) - {x.value} && beforeReduce == |nodes|
    {
      updated := true;
      if nodes == {} {
        x := None;
      } else {
        var y :| y in nodes;
        nodes := nodes - {y};
        beforeReduce := |nodes|;
        x := Some(y);
      }
    }

    /** `remove`: a missing node raises KeyError (`false` here) before anything
        is changed. */
    method Remove(x: N) returns (ok: bool)
      requires Valid()
      modifies this
      ensures Valid()
      ensures ok <==> x in old(nodes)
      ensures ok ==> nodes == old(nodes) - {x} && updated && beforeReduce == |nodes|
      ensures !ok ==> nodes == old(nodes) && updated == old(updated) && beforeReduce == old(beforeReduce)
    {
      ok := x in nodes;
      if ok {
        nodes := nodes - {x};
        updated := true;
        beforeReduce := |nodes|;
      }
    }

    method Clear()
      modifies this
      ensures Valid() && updated
      ensures nodes == {} && beforeReduce == 0
    {
      nodes := {};
      updated := true;
      beforeReduce := 0;
    }

    /** `union`: a copy of the reduced receiver holding its nodes together with `s`. */
    method Union(s: set<N>) returns (r: Representation<N>)
      requires Valid()
      modifies this
      ensures Valid() && !updated && beforeReduce == old(beforeReduce)
      ensures old(updated) ==> ReducedFrom(old(nodes))
      ensures !old(updated) ==> nodes == old(nodes)
      ensures fresh(r) && r.Valid() && r.updated
      ensures r.nodes == nodes + s && r.beforeReduce == |r.nodes|
      ensures r.isParentTo == isParentTo && r.isTwinTo == isTwinTo && r.key == key
    {
      r := Copy();
      r.SetNodes(nodes + s);
    }

    method Intersection(s: set<N>) returns (r: Representation<N>)
      requires Valid()
      modifies this
      ensures Valid() && !updated && beforeReduce == old(beforeReduce)
      ensures old(updated) ==> ReducedFrom(old(nodes))
      ensures !old(updated) ==> nodes == old(nodes)
      ensures fresh(r) && r.Valid() && r.updated
      ensures r.nodes == nodes * s && r.beforeReduce == |r.nodes|
      ensures r.isParentTo == isParentTo && r.isTwinTo == isTwinTo && r.key == key
    {
      r := Copy();
      r.SetNodes(nodes * s);
    }

    method Difference(s: set<N>) returns (r: Representation<N>)
      requires Valid()
      modifies this
      ensures Valid() && !updated && beforeReduce == old(beforeReduce)
      ensures old(updated) ==> ReducedFrom(old(nodes))
      ensures !old(updated) ==> nodes == old(nodes)
      ensures fresh(r) && r.Valid() && r.updated
      ensures r.nodes == nodes - s && r.beforeReduce == |r.nodes|
      ensures r.isParentTo == isParentTo && r.isTwinTo == isTwinTo && r.key == key
    {
      r := Copy();
      r.SetNodes(nodes - s);
    }
  }
}
