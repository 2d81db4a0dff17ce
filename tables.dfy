/** Column tables: the part of a pandas DataFrame that the relation engine
    looks at. A table has ordered, distinct column labels, one value sequence
    per label and a common height. The module also defines the functional
    dependency test that both relation versions use:
    `df.groupby(g)[o].nunique().max() == 1`. */
module Tables {
  import opened Seqs

  datatype Table<V> = Table(names: seq<string>, cols: map<string, seq<V>>, height: nat)
  {
    predicate Valid() {
      Distinct(names) &&
      (forall n | n in names :: n in cols) && (forall n | n in cols :: n in names) &&
      forall n | n in cols :: |cols[n]| == height
    }
  }

  /** `df[name] = values`: overwrites an existing column in place, otherwise
      appends a new last column. */
  function WithColumn<V>(t: Table<V>, name: string, values: seq<V>): (r: Table<V>)
    requires t.Valid() && |values| == t.height
    ensures r.Valid()
    ensures r.height == t.height
    ensures r.cols == t.cols[name := values]
    ensures name in t.cols ==> r.names == t.names
    ensures name !in t.cols ==> r.names == t.names + [name]
  {
    if name in t.cols then Table(t.names, t.cols[name := values], t.height)
    else Table(t.names + [name], t.cols[name := values], t.height)
  }

  /** The number of distinct values of `ocol` over the rows where `gcol` equals `v`
      (`nunique()` of one group). */
  function Nunique<V(==)>(gcol: seq<V>, ocol: seq<V>, v: V): (n: nat)
    requires |gcol| == |ocol|
  {
    |set i | 0 <= i < |gcol| && gcol[i] == v :: ocol[i]|
  }

  /** `groupby(g)[o].nunique().max()` over the first `n` rows' keys. The maximum
      of an empty column is NaN in pandas; it is 0 here, which behaves the same
      way in the only comparisons the engine makes (`== 1` and `> 1`). */
  function MaxNunique<V(==)>(gcol: seq<V>, ocol: seq<V>, n: nat): (m: nat)
    requires |gcol| == |ocol| && n <= |gcol|
  {
    if n == 0 then 0
    else
      var prev := MaxNunique(gcol, ocol, n - 1);
      var here := Nunique(gcol, ocol, gcol[n - 1]);
      if prev < here then here else prev
  }

  /** The maximum bounds every group's count and is attained by one of them. */
  lemma {:induction false} MaxNuniqueIsMax<V>(gcol: seq<V>, ocol: seq<V>, n: nat)
    requires |gcol| == |ocol| && n <= |gcol|
    ensures forall i | 0 <= i < n :: Nunique(gcol, ocol, gcol[i]) <= MaxNunique(gcol, ocol, n)
    ensures n == 0 <==> MaxNunique(gcol, ocol, n) == 0
    ensures n > 0 ==> exists i :: 0 <= i < n && MaxNunique(gcol, ocol, n) == Nunique(gcol, ocol, gcol[i])
  {
    if n > 0 {
      MaxNuniqueIsMax(gcol, ocol, n - 1);
      NuniquePositive(gcol, ocol, n - 1);
    }
  }

  /** Column `g` functionally determines column `o`: the table has rows and any
      two rows that agree on `g` agree on `o`. */
  predicate Determines<V(==)>(gcol: seq<V>, ocol: seq<V>)
    requires |gcol| == |ocol|
  {
    |gcol| > 0 &&
    forall i, j | 0 <= i < |gcol| && 0 <= j < |gcol| && gcol[i] == gcol[j] :: ocol[i] == ocol[j]
  }

  lemma NuniquePositive<V>(gcol: seq<V>, ocol: seq<V>, i: nat)
    requires |gcol| == |ocol| && i < |gcol|
    ensures Nunique(gcol, ocol, gcol[i]) >= 1
  {
    var s := set k | 0 <= k < |gcol| && gcol[k] == gcol[i] :: ocol[k];
    assert ocol[i] in s;
  }

  /** The counting test of the source and the functional-dependency reading agree:
      the maximum group size is 1 exactly when `g` determines `o`, and it is
      larger than 1 exactly when the table has rows and `g` does not determine `o`. */
  lemma MaxNuniqueOneIffDetermines<V>(gcol: seq<V>, ocol: seq<V>)
    requires |gcol| == |ocol|
    ensures MaxNunique(gcol, ocol, |gcol|) == 1 <==> Determines(gcol, ocol)
    ensures MaxNunique(gcol, ocol, |gcol|) > 1 <==> |gcol| > 0 && !Determines(gcol, ocol)
  {
    var n := |gcol|;
    var m := MaxNunique(gcol, ocol, n);
    MaxNuniqueIsMax(gcol, ocol, n);
    if Determines(gcol, ocol) {
      forall i | 0 <= i < n ensures Nunique(gcol, ocol, gcol[i]) == 1 {
        var s := set k | 0 <= k < n && gcol[k] == gcol[i] :: ocol[k];
        assert s == {ocol[i]};
      }
      var i :| 0 <= i < n && m == Nunique(gcol, ocol, gcol[i]);
    } else if n > 0 {
      var i, j :| 0 <= i < n && 0 <= j < n && gcol[i] == gcol[j] && ocol[i] != ocol[j];
      var s := set k | 0 <= k < n && gcol[k] == gcol[i] :: ocol[k];
      assert ocol[i] in s && ocol[j] in s;
      assert {ocol[i], ocol[j]} <= s;
      assert |{ocol[i], ocol[j]}| == 2;
      SubsetCard({ocol[i], ocol[j]}, s);
      assert Nunique(gcol, ocol, gcol[i]) >= 2;
    }
  }

  lemma SubsetCard<T>(a: set<T>, b: set<T>)
    requires a <= b
    ensures |a| <= |b|
  {
    assert b == a + (b - a);
  }
}
