/** Sequence and set helpers shared by the relation modules: optional values,
    distinctness, first-appearance de-duplication (what `unique()` and
    `groupby(...).first()` rely on), the ascending enumeration used for set
    iteration order, and the stable sort used where the source sorts. */
module Seqs {

  datatype Option<T> = None | Some(value: T)

  predicate Distinct<T(==)>(s: seq<T>) {
    forall i, j | 0 <= i < |s| && 0 <= j < |s| && i != j :: s[i] != s[j]
  }

  /** 0, 1, ..., n-1 (numpy's `arange(n)`). */
  function Range(n: nat): (r: seq<nat>)
    ensures |r| == n
    ensures forall i | 0 <= i < n :: r[i] == i
  {
    seq(n, i => i)
  }

  /** Position of the first occurrence of `v` in `s`. */
  function FirstIndex<T(==)>(s: seq<T>, v: T): (k: nat)
    requires v in s
    ensures k < |s| && s[k] == v
    ensures forall j | 0 <= j < k :: s[j] != v
  {
    if v in s[..|s| - 1] then FirstIndex(s[..|s| - 1], v) else |s| - 1
  }

  /** Joining two disjoint sequences without repetitions gives one without
      repetitions. */
  lemma DistinctConcat<T>(a: seq<T>, b: seq<T>)
    requires Distinct(a) && Distinct(b)
    requires forall x | x in a :: x !in b
    ensures Distinct(a + b)
  {
    var c := a + b;
    forall i, j | 0 <= i < |c| && 0 <= j < |c| && i != j ensures c[i] != c[j] {
      if i < |a| && j >= |a| {
        assert c[i] in a && c[j] == b[j - |a|];
      } else if j < |a| && i >= |a| {
        assert c[j] in a && c[i] == b[i - |a|];
      } else if i >= |a| {
        assert c[i] == b[i - |a|] && c[j] == b[j - |a|];
      }
    }
  }

  /** In a sequence without repetitions every position is the first occurrence
      of its element. */
  lemma DistinctFirstIndex<T>(s: seq<T>, i: nat)
    requires Distinct(s) && i < |s|
    ensures FirstIndex(s, s[i]) == i
  {
    var k := FirstIndex(s, s[i]);
    assert s[k] == s[i];
  }

  /** Placing `g` between two disjoint sequences without repetitions gives a
      sequence without repetitions in which the left part comes before `g` and
      the right part after it. */
  lemma ConcatAround<T>(left: seq<T>, g: T, right: seq<T>)
    requires Distinct(left) && Distinct(right) && g !in left && g !in right
    requires forall x | x in left :: x !in right
    ensures Distinct(left + [g] + right)
    ensures FirstIndex(left + [g] + right, g) == |left|
    ensures forall x | x in left :: FirstIndex(left + [g] + right, x) < |left|
    ensures forall x | x in right :: FirstIndex(left + [g] + right, x) > |left|
  {
    var c := left + [g] + right;
    DistinctConcat(left, [g]);
    DistinctConcat(left + [g], right);
    assert c[|left|] == g;
    DistinctFirstIndex(c, |left|);
    forall x | x in left ensures FirstIndex(c, x) < |left| {
      var j :| 0 <= j < |left| && left[j] == x;
      assert c[j] == x;
      DistinctFirstIndex(c, j);
    }
    forall x | x in right ensures FirstIndex(c, x) > |left| {
      var j :| 0 <= j < |right| && right[j] == x;
      assert c[|left| + 1 + j] == x;
      DistinctFirstIndex(c, |left| + 1 + j);
    }
  }

  /** The distinct values of `s` in order of first appearance (pandas' `unique()`). */
  function Unique<T(==)>(s: seq<T>): (r: seq<T>)
    ensures Distinct(r)
    ensures forall x | x in r :: x in s
    ensures forall x | x in s :: x in r
    ensures |r| <= |s|
  {
    if |s| == 0 then []
    else
      var u := Unique(s[..|s| - 1]);
      var x := s[|s| - 1];
      assert forall y | y in s :: y in s[..|s| - 1] || y == x;
      if x in u then u else u + [x]
  }

  lemma {:induction false} FirstIndexPrefix<T>(s: seq<T>, n: nat, v: T)
    requires n <= |s| && v in s[..n]
    ensures FirstIndex(s[..n], v) == FirstIndex(s, v)
  {
    var k := FirstIndex(s[..n], v);
    assert s[..n][k] == v;
    assert forall j | 0 <= j < k :: s[j] == s[..n][j];
  }

  /** Unique lists values in strictly increasing order of first appearance. */
  lemma {:induction false} UniqueOrder<T>(s: seq<T>, i: nat, j: nat)
    requires i < j < |Unique(s)|
    ensures FirstIndex(s, Unique(s)[i]) < FirstIndex(s, Unique(s)[j])
  {
    var p := s[..|s| - 1];
    var u := Unique(p);
    var x := s[|s| - 1];
    assert s == p + [x];
    if j < |u| {
      UniqueOrder(p, i, j);
      FirstIndexPrefix(s, |s| - 1, u[i]);
      FirstIndexPrefix(s, |s| - 1, u[j]);
    } else {
      assert x !in u && Unique(s)[j] == x && Unique(s)[i] == u[i];
      assert x !in p;
      FirstIndexPrefix(s, |s| - 1, u[i]);
    }
  }

  /** Ascending enumeration of a finite set of identifiers; it stands for the
      iteration order of a set, which the source leaves to the runtime. */
  function SortedSeq(s: set<nat>): (r: seq<nat>)
    ensures |r| == |s|
    ensures forall x :: x in r <==> x in s
    ensures forall i, j | 0 <= i < j < |r| :: r[i] < r[j]
    decreases |s|
  {
    if s == {} then []
    else
      var m := Min(s);
      var rest := SortedSeq(s - {m});
      [m] + rest
  }

  /** `m` is the least element of `s`. */
  predicate IsLeast(s: set<nat>, m: nat) {
    m in s && forall x | x in s :: m <= x
  }

  function Min(s: set<nat>): (m: nat)
    requires s != {}
    ensures m in s && forall x | x in s :: m <= x
  {
    MinExists(s);
    var m :| IsLeast(s, m);
    m
  }

  lemma MinExists(s: set<nat>)
    requires s != {}
    ensures exists m :: IsLeast(s, m)
    decreases |s|
  {
    var y :| y in s;
    var rest := s - {y};
    if rest == {} {
      assert IsLeast(s, y) by {
        forall x | x in s ensures y <= x {
          assert x !in rest;
        }
      }
    } else {
      MinExists(rest);
      var m :| IsLeast(rest, m);
      var best := if y < m then y else m;
      assert IsLeast(s, best) by {
        forall x | x in s ensures best <= x {
          if x != y { assert x in rest; }
        }
      }
    }
  }

  lemma SortedSeqDistinct(s: set<nat>)
    ensures Distinct(SortedSeq(s))
  {
    var r := SortedSeq(s);
    forall i, j | 0 <= i < |r| && 0 <= j < |r| && i != j
      ensures r[i] != r[j]
    {
      if i < j { assert r[i] < r[j]; } else { assert r[j] < r[i]; }
    }
  }

  predicate SortedByKey<T>(s: seq<T>, key: T -> int) {
    forall i, j | 0 <= i < j < |s| :: key(s[i]) <= key(s[j])
  }

  /** Inserts `x` after every element whose key is not larger (keeps ties in order). */
  function InsertByKey<T>(x: T, s: seq<T>, key: T -> int): (r: seq<T>)
    requires SortedByKey(s, key)
    ensures SortedByKey(r, key)
    ensures multiset(r) == multiset(s) + multiset{x}
    ensures |r| == |s| + 1
    ensures forall i | 0 <= i < |r| :: r[i] == x || r[i] in s
  {
    if |s| == 0 then [x]
    else if key(s[|s| - 1]) <= key(x) then
      AppendSorted(x, s, key);
      s + [x]
    else
      var r' := InsertByKey(x, s[..|s| - 1], key);
      InsertSorted(x, s, r', key);
      r' + [s[|s| - 1]]
  }

  /** An element whose key is not smaller than the last one goes at the end. */
  lemma AppendSorted<T>(x: T, s: seq<T>, key: T -> int)
    requires SortedByKey(s, key) && |s| > 0 && key(s[|s| - 1]) <= key(x)
    ensures SortedByKey(s + [x], key)
    ensures multiset(s + [x]) == multiset(s) + multiset{x}
    ensures forall y | y in s + [x] :: y == x || y in s
  {
  }

  /** Appending the larger last element after inserting into the rest keeps
      the order, the elements and the length. */
  lemma InsertSorted<T>(x: T, s: seq<T>, r': seq<T>, key: T -> int)
    requires SortedByKey(s, key) && |s| > 0 && SortedByKey(r', key)
    requires key(x) < key(s[|s| - 1])
    requires forall i | 0 <= i < |r'| :: r'[i] == x || r'[i] in s[..|s| - 1]
    requires multiset(r') == multiset(s[..|s| - 1]) + multiset{x} && |r'| == |s|
    ensures SortedByKey(r' + [s[|s| - 1]], key)
    ensures multiset(r' + [s[|s| - 1]]) == multiset(s) + multiset{x}
    ensures forall y | y in r' + [s[|s| - 1]] :: y == x || y in s
  {
    var init, last := s[..|s| - 1], s[|s| - 1];
    assert s == init + [last];
    forall i | 0 <= i < |r'| ensures key(r'[i]) <= key(last) {
      if r'[i] != x {
        var k :| 0 <= k < |init| && init[k] == r'[i];
        assert s[k] == init[k];
      }
    }
  }

  /** Stable insertion sort on a key: the result is ordered by key and is a
      permutation of the input. */
  function SortBy<T>(s: seq<T>, key: T -> int): (r: seq<T>)
    ensures SortedByKey(r, key)
    ensures multiset(r) == multiset(s)
    ensures |r| == |s|
  {
    if |s| == 0 then []
    else
      assert s == s[..|s| - 1] + [s[|s| - 1]];
      InsertByKey(s[|s| - 1], SortBy(s[..|s| - 1], key), key)
  }

  lemma {:induction false} InsertDistinct<T>(x: T, s: seq<T>, key: T -> int)
    requires SortedByKey(s, key) && Distinct(s) && x !in s
    ensures Distinct(InsertByKey(x, s, key))
  {
    if |s| > 0 && key(x) < key(s[|s| - 1]) {
      var init, last := s[..|s| - 1], s[|s| - 1];
      assert s == init + [last];
      assert SortedByKey(init, key) && Distinct(init) && x !in init;
      InsertDistinct(x, init, key);
      var r' := InsertByKey(x, init, key);
      assert last !in init;
      assert last !in r';
    }
  }

  /** Sorting a sequence without repetitions yields one without repetitions. */
  lemma {:induction false} SortByDistinct<T>(s: seq<T>, key: T -> int)
    requires Distinct(s)
    ensures Distinct(SortBy(s, key))
  {
    if |s| > 0 {
      var init := s[..|s| - 1];
      assert s == init + [s[|s| - 1]];
      assert Distinct(init);
      SortByDistinct(init, key);
      var sorted := SortBy(init, key);
      assert s[|s| - 1] !in multiset(init);
      assert s[|s| - 1] !in multiset(sorted);
      InsertDistinct(s[|s| - 1], sorted, key);
    }
  }

  /** The elements of `s` that satisfy `f`, in order (a list comprehension with a condition). */
  function Filter<T>(s: seq<T>, f: T -> bool): (r: seq<T>)
    ensures |r| <= |s|
    ensures forall x | x in r :: x in s && f(x)
    ensures forall x | x in s && f(x) :: x in r
    ensures (forall x | x in s :: !f(x)) ==> r == []
  {
    if |s| == 0 then []
    else
      var init := Filter(s[..|s| - 1], f);
      assert forall x | x in s :: x in s[..|s| - 1] || x == s[|s| - 1];
      if f(s[|s| - 1]) then init + [s[|s| - 1]] else init
  }

  /** The two halves of a partition by `f` together are a permutation of `s`. */
  lemma {:induction false} FilterPartition<T>(s: seq<T>, f: T -> bool, g: T -> bool)
    requires forall x | x in s :: g(x) == !f(x)
    ensures multiset(Filter(s, f)) + multiset(Filter(s, g)) == multiset(s)
    ensures |Filter(s, f)| + |Filter(s, g)| == |s|
  {
    if |s| > 0 {
      var init := s[..|s| - 1];
      assert s == init + [s[|s| - 1]];
      FilterPartition(init, f, g);
    }
  }

  lemma {:induction false} FilterDistinct<T>(s: seq<T>, f: T -> bool)
    requires Distinct(s)
    ensures Distinct(Filter(s, f))
  {
    if |s| > 0 {
      var init := s[..|s| - 1];
      assert s == init + [s[|s| - 1]];
      assert Distinct(init);
      FilterDistinct(init, f);
      assert s[|s| - 1] !in init;
    }
  }
}
