/** sakkara/relation/groupset.py: the parent matrix of a table of group
    columns, the construction of one `CompositeBase` per column with its
    members and their parent members, and the `coords` of a group set.

    A column `o` is marked a parent of column `g` when every value of `g`
    occurs with a single value of `o`. Rows of the matrix are ordered by how
    many parents they have, and `init` builds the groups in that order, looking
    each parent up among the groups already built. */
module GroupSets {
  import opened Seqs
  import opened Tables
  import opened Composites

  /** A cell of a group column as the data frame holds it: a string, or a
      number (an integer column such as a running id). */
  datatype Cell = Text(s: string) | Number(n: int)

  /** The decimal digits of a natural number. */
  function Digits(n: nat): (r: string)
    ensures |r| > 0 && forall c | c in r :: '0' <= c <= '9'
  {
    var d := [(48 + n % 10) as char];
    if n < 10 then d else Digits(n / 10) + d
  }

  /** `str` of a cell: a string unchanged, a number in decimal. */
  function Str(c: Cell): string {
    match c
    case Text(s) => s
    case Number(n) => if n < 0 then "-" + Digits(-n) else Digits(n)
  }

  /** The group columns of a data frame, cells as they are stored. */
  type Frame = Table<Cell>

  // ------------------------------------------------------------ parent matrix

  /** `df.groupby(g).nunique().max()[o] == 1`, off the diagonal. */
  predicate ParentEntry(t: Frame, g: string, o: string)
    requires t.Valid() && g in t.cols && o in t.cols
  {
    g != o && MaxNunique(t.cols[g], t.cols[o], t.height) == 1
  }

  /** The entry as the matrix holds it: as written (`strict` false), or with
      mutually determining columns left unmarked (`strict` true). */
  predicate Entry(t: Frame, strict: bool, g: string, o: string)
    requires t.Valid() && g in t.cols && o in t.cols
  {
    ParentEntry(t, g, o) && (strict ==> !ParentEntry(t, o, g))
  }

  /** Two different columns that determine each other. */
  predicate NoTwins(t: Frame)
    requires t.Valid()
  {
    forall g, o | g in t.cols && o in t.cols :: !(ParentEntry(t, g, o) && ParentEntry(t, o, g))
  }

  /** The number of `true` entries (`sum(axis=1)` of a boolean row). */
  function CountTrue(s: seq<bool>): (n: nat)
    ensures n <= |s|
  {
    if |s| == 0 then 0 else CountTrue(s[..|s| - 1]) + (if s[|s| - 1] then 1 else 0)
  }

  /** The row of column `g`, one entry per column in column order. */
  function RowOf(t: Frame, strict: bool, g: string): (row: seq<bool>)
    requires t.Valid() && g in t.cols
    ensures |row| == |t.names|
    ensures forall c | 0 <= c < |t.names| :: row[c] == Entry(t, strict, g, t.names[c])
  {
    seq(|t.names|, c requires 0 <= c < |t.names| => Entry(t, strict, g, t.names[c]))
  }

  /** The `rank` column: how many parents the row marks. */
  function Rank(t: Frame, strict: bool, g: string): nat
    requires t.Valid() && g in t.cols
  {
    CountTrue(RowOf(t, strict, g))
  }

  /** The returned frame: row labels, column labels and the boolean entries. */
  datatype ParentFrame = ParentFrame(index: seq<string>, columns: seq<string>, entries: seq<seq<bool>>)

  /** The frame has one row per row label, each as wide as the table, and its
      labels are columns of the table. */
  predicate Shaped(t: Frame, pf: ParentFrame) {
    t.Valid() && pf.columns == t.names && |pf.entries| == |pf.index| &&
    (forall r | 0 <= r < |pf.index| :: pf.index[r] in t.cols) &&
    forall r | 0 <= r < |pf.entries| :: |pf.entries[r]| == |t.names|
  }

  /** What `get_parent_df` returns: the table's columns in their own order, the
      rows a permutation of the columns, each row the entries of its column,
      and the rows in non-decreasing rank. */
  predicate IsParentFrame(t: Frame, strict: bool, pf: ParentFrame) {
    Shaped(t, pf) &&
    multiset(pf.index) == multiset(t.names) &&
    (forall r | 0 <= r < |pf.index| :: pf.entries[r] == RowOf(t, strict, pf.index[r])) &&
    forall r1, r2 | 0 <= r1 < r2 < |pf.index| :: Rank(t, strict, pf.index[r1]) <= Rank(t, strict, pf.index[r2])
  }

  /** The loop of `get_parent_df` over a matrix that starts all `False`: row
      i is newRow its entries in every column except its own. */
  method FillParentMatrix(t: Frame, strict: bool) returns (rows: seq<seq<bool>>)
    requires t.Valid()
    ensures |rows| == |t.names|
    ensures forall k | 0 <= k < |t.names| :: rows[k] == RowOf(t, strict, t.names[k])
  {
    var n := |t.names|;
    var counts := new seq<bool>[n](_ => seq(n, _ => false));
    for i := 0 to n
      invariant forall r | 0 <= r < i :: counts[r] == RowOf(t, strict, t.names[r])
      invariant forall r | i <= r < n :: counts[r] == seq(n, _ => false)
    {
      var row := counts[i];
      var newRow := seq(n, c requires 0 <= c < n => if c == i then row[c] else Entry(t, strict, t.names[i], t.names[c]));
      assert newRow == RowOf(t, strict, t.names[i]);
      counts[i] := newRow;
    }
    rows := counts[..];
  }

  /** Fills the matrix, adds the rank, sorts the rows by it and keeps the
      table's own columns. */
  method BuildParentFrame(t: Frame, strict: bool) returns (pf: ParentFrame)
    requires t.Valid()
    ensures IsParentFrame(t, strict, pf)
  {
    var rows := FillParentMatrix(t, strict);
    pf := SortRows(t.names, rows);
    SortRowsIsParentFrame(t, strict, rows);
  }

  /** `counts_df['rank']` looked up by row label. */
  function RankKey(names: seq<string>, rows: seq<seq<bool>>): string -> int {
    g => if g in names && FirstIndex(names, g) < |rows| then CountTrue(rows[FirstIndex(names, g)]) else 0
  }

  /** `sort_values(by='rank')` followed by `loc[:, df.columns]`: the rows
      reordered by rank, labels travelling with their rows. */
  function SortRows(names: seq<string>, rows: seq<seq<bool>>): ParentFrame
    requires |rows| == |names|
  {
    var index := SortBy(names, RankKey(names, rows));
    SortedLabels(names, RankKey(names, rows));
    ParentFrame(index, names, seq(|names|, r requires 0 <= r < |names| => rows[FirstIndex(names, index[r])]))
  }

  lemma SortedLabels(names: seq<string>, key: string -> int)
    ensures forall r | 0 <= r < |SortBy(names, key)| :: SortBy(names, key)[r] in names
  {
    var index := SortBy(names, key);
    forall r | 0 <= r < |index| ensures index[r] in names {
      assert index[r] in multiset(index);
    }
  }

  /** Sorting the rows of the matrix by their rank yields a parent frame. */
  lemma SortRowsIsParentFrame(t: Frame, strict: bool, rows: seq<seq<bool>>)
    requires t.Valid() && |rows| == |t.names|
    requires forall k | 0 <= k < |t.names| :: rows[k] == RowOf(t, strict, t.names[k])
    ensures IsParentFrame(t, strict, SortRows(t.names, rows))
  {
    var key := RankKey(t.names, rows);
    var pf := SortRows(t.names, rows);
    SortedRowsMatch(t, strict, rows);
    assert Shaped(t, pf);
    assert SortedByKey(pf.index, key);
  }

  /** Each sorted row is the row of its label, and its key is that label's rank. */
  lemma SortedRowsMatch(t: Frame, strict: bool, rows: seq<seq<bool>>)
    requires t.Valid() && |rows| == |t.names|
    requires forall k | 0 <= k < |t.names| :: rows[k] == RowOf(t, strict, t.names[k])
    ensures var pf := SortRows(t.names, rows);
      |pf.index| == |t.names| && |pf.entries| == |pf.index| && multiset(pf.index) == multiset(t.names) &&
      forall r | 0 <= r < |pf.index| :: pf.index[r] in t.cols &&
        pf.entries[r] == RowOf(t, strict, pf.index[r]) &&
        RankKey(t.names, rows)(pf.index[r]) == Rank(t, strict, pf.index[r])
  {
    var pf := SortRows(t.names, rows);
    SortedLabels(t.names, RankKey(t.names, rows));
    forall r | 0 <= r < |pf.index|
      ensures pf.index[r] in t.cols
      ensures pf.entries[r] == RowOf(t, strict, pf.index[r])
      ensures RankKey(t.names, rows)(pf.index[r]) == Rank(t, strict, pf.index[r])
    {
      assert pf.entries[r] == rows[FirstIndex(t.names, pf.index[r])];
      RowOfLabel(t, strict, rows, pf.index[r]);
    }
  }

  /** The row stored for a label is that label's row, and its key its rank. */
  lemma RowOfLabel(t: Frame, strict: bool, rows: seq<seq<bool>>, g: string)
    requires t.Valid() && |rows| == |t.names| && g in t.names
    requires forall k | 0 <= k < |t.names| :: rows[k] == RowOf(t, strict, t.names[k])
    ensures g in t.cols && FirstIndex(t.names, g) < |rows|
    ensures rows[FirstIndex(t.names, g)] == RowOf(t, strict, g)
    ensures RankKey(t.names, rows)(g) == Rank(t, strict, g)
  {
    var k := FirstIndex(t.names, g);
    assert t.names[k] == g;
  }

  /** `get_parent_df(df)`: the entry of row g and column o holds exactly when o
      is another column and g determines o; no column is its own parent. */
  method GetParentDf(t: Frame) returns (pf: ParentFrame)
    requires t.Valid()
    ensures IsParentFrame(t, false, pf)
    ensures forall r, c | 0 <= r < |pf.index| && 0 <= c < |t.names| ::
      pf.entries[r][c] <==> t.names[c] != pf.index[r] && Determines(t.cols[pf.index[r]], t.cols[t.names[c]])
    ensures forall r, c | 0 <= r < |pf.index| && 0 <= c < |t.names| && pf.index[r] == t.names[c] :: !pf.entries[r][c]
  {
    pf := BuildParentFrame(t, false);
    forall r, c | 0 <= r < |pf.index| && 0 <= c < |t.names|
      ensures pf.entries[r][c] <==> t.names[c] != pf.index[r] && Determines(t.cols[pf.index[r]], t.cols[t.names[c]])
    {
      ParentEntryDetermines(t, pf.index[r], t.names[c]);
    }
  }

  /** The parent matrix with mutually determining columns left unmarked, which
      the assertions on a duplicated column expect. */
  method GetParentDfStrict(t: Frame) returns (pf: ParentFrame)
    requires t.Valid()
    ensures IsParentFrame(t, true, pf)
    ensures forall r, c | 0 <= r < |pf.index| && 0 <= c < |t.names| ::
      pf.entries[r][c] <==> t.names[c] != pf.index[r] && Determines(t.cols[pf.index[r]], t.cols[t.names[c]]) &&
                            !Determines(t.cols[t.names[c]], t.cols[pf.index[r]])
  {
    pf := BuildParentFrame(t, true);
    forall r, c | 0 <= r < |pf.index| && 0 <= c < |t.names|
      ensures pf.entries[r][c] <==> t.names[c] != pf.index[r] && Determines(t.cols[pf.index[r]], t.cols[t.names[c]]) &&
                                    !Determines(t.cols[t.names[c]], t.cols[pf.index[r]])
    {
      ParentEntryDetermines(t, pf.index[r], t.names[c]);
      ParentEntryDetermines(t, t.names[c], pf.index[r]);
    }
  }

  /** The counting test is the functional dependency of `o` on `g`. */
  lemma ParentEntryDetermines(t: Frame, g: string, o: string)
    requires t.Valid() && g in t.cols && o in t.cols
    ensures ParentEntry(t, g, o) <==> g != o && Determines(t.cols[g], t.cols[o])
  {
    MaxNuniqueOneIffDetermines(t.cols[g], t.cols[o]);
  }

  /** Two different columns holding the same values on a table with rows mark
      each other as parents. */
  lemma IdenticalColumnsAreTwins(t: Frame, g: string, o: string)
    requires t.Valid() && g in t.cols && o in t.cols && g != o
    requires t.cols[g] == t.cols[o] && t.height > 0
    ensures ParentEntry(t, g, o) && ParentEntry(t, o, g)
    ensures !NoTwins(t)
  {
    ParentEntryDetermines(t, g, o);
    ParentEntryDetermines(t, o, g);
  }

  lemma DeterminesTransitive<V>(a: seq<V>, b: seq<V>, c: seq<V>)
    requires |a| == |b| == |c| && Determines(a, b) && Determines(b, c)
    ensures Determines(a, c)
  {
  }

  lemma {:induction false} CountTrueLe(a: seq<bool>, b: seq<bool>)
    requires |a| == |b| && forall i | 0 <= i < |a| :: a[i] ==> b[i]
    ensures CountTrue(a) <= CountTrue(b)
  {
    if |a| > 0 {
      CountTrueLe(a[..|a| - 1], b[..|b| - 1]);
    }
  }

  /** A row that marks everything another row marks and one entry more counts more. */
  lemma {:induction false} CountTrueLess(a: seq<bool>, b: seq<bool>, k: nat)
    requires |a| == |b| && forall i | 0 <= i < |a| :: a[i] ==> b[i]
    requires k < |a| && b[k] && !a[k]
    ensures CountTrue(a) < CountTrue(b)
  {
    var n := |a| - 1;
    if k == n {
      CountTrueLe(a[..n], b[..n]);
    } else {
      CountTrueLess(a[..n], b[..n], k);
    }
  }

  /** A parent that does not determine its child marks strictly fewer parents
      than the child: every parent of the parent is a parent of the child, and
      the parent itself is one more. */
  lemma ParentRankBelow(t: Frame, strict: bool, g: string, o: string)
    requires t.Valid() && g in t.cols && o in t.cols
    requires Entry(t, strict, g, o) && !ParentEntry(t, o, g)
    ensures Rank(t, strict, o) < Rank(t, strict, g)
  {
    var a, b := RowOf(t, strict, o), RowOf(t, strict, g);
    ParentEntryDetermines(t, g, o);
    ParentEntryDetermines(t, o, g);
    forall c | 0 <= c < |a| ensures a[c] ==> b[c] {
      var x := t.names[c];
      if a[c] {
        ParentEntryDetermines(t, o, x);
        ParentEntryDetermines(t, g, x);
        ParentEntryDetermines(t, x, o);
        ParentEntryDetermines(t, x, g);
        DeterminesTransitive(t.cols[g], t.cols[o], t.cols[x]);
        if ParentEntry(t, x, g) {
          DeterminesTransitive(t.cols[x], t.cols[g], t.cols[o]);
        }
      }
    }
    var k := FirstIndex(t.names, o);
    CountTrueLess(a, b, k);
  }

  /** Every row's parents are labels of earlier rows. */
  predicate ParentsBuiltFirst(t: Frame, pf: ParentFrame)
    requires Shaped(t, pf)
  {
    forall r, c | 0 <= r < |pf.index| && 0 <= c < |t.names| && pf.entries[r][c] :: t.names[c] in pf.index[..r]
  }

  /** Sorting by rank puts every parent row before its children, unless the
      two determine each other. */
  lemma ParentsComeFirst(t: Frame, strict: bool, pf: ParentFrame)
    requires IsParentFrame(t, strict, pf) && (strict || NoTwins(t))
    ensures ParentsBuiltFirst(t, pf)
  {
    forall r, c | 0 <= r < |pf.index| && 0 <= c < |t.names| && pf.entries[r][c]
      ensures t.names[c] in pf.index[..r]
    {
      ParentRowBefore(t, strict, pf, r, c);
    }
  }

  /** One marked entry: its column's row lies above. */
  lemma ParentRowBefore(t: Frame, strict: bool, pf: ParentFrame, r: nat, c: nat)
    requires IsParentFrame(t, strict, pf) && (strict || NoTwins(t))
    requires r < |pf.index| && c < |t.names| && pf.entries[r][c]
    ensures t.names[c] in pf.index[..r]
  {
    var g, o := pf.index[r], t.names[c];
    assert g in t.cols && o in t.cols;
    assert Entry(t, strict, g, o) by {
      assert pf.entries[r] == RowOf(t, strict, g);
    }
    ParentRankBelow(t, strict, g, o);
    assert o in multiset(pf.index) by {
      assert o in multiset(t.names);
    }
    var k := FirstIndex(pf.index, o);
    assert pf.index[k] == o && o != g;
    assert k < r;
    assert pf.index[..r][k] == o;
  }

  /** As written, a pair of mutually determining columns stops the build: the
      first of the two rows asks for the other before it exists. */
  lemma TwinsBlockInit(t: Frame, pf: ParentFrame)
    requires IsParentFrame(t, false, pf) && !NoTwins(t)
    ensures !ParentsBuiltFirst(t, pf)
  {
    var g, o :| g in t.cols && o in t.cols && ParentEntry(t, g, o) && ParentEntry(t, o, g);
    assert g in multiset(pf.index) && o in multiset(pf.index);
    var rg, ro := FirstIndex(pf.index, g), FirstIndex(pf.index, o);
    if rg < ro {
      var c := FirstIndex(t.names, o);
      assert pf.entries[rg][c];
      assert o !in pf.index[..rg];
    } else {
      var c := FirstIndex(t.names, g);
      assert pf.entries[ro][c];
      assert g !in pf.index[..ro];
    }
  }

  // -------------------------------------------------------- member parents

  /** `df.groupby(name).first()[col][k]`: the raw cell of column `col` on the
      first row where column `name` holds `k`. */
  function FirstValue(t: Frame, name: string, k: Cell, col: string): (v: Cell)
    requires t.Valid() && name in t.cols && col in t.cols && k in t.cols[name]
    ensures v in t.cols[col]
  {
    t.cols[col][FirstIndex(t.cols[name], k)]
  }

  /** The members among `pms` that member value `k` is attached to. The source
      compares the raw first `col` cell of `k` with `str(parent_member)`, so
      only a string cell equal to a member's name matches. */
  function MatchingMembers(t: Frame, name: string, k: Cell, col: string, pms: seq<Member>): set<Member>
    requires t.Valid() && name in t.cols && col in t.cols && k in t.cols[name]
  {
    if |pms| == 0 then {}
    else
      var last := pms[|pms| - 1];
      MatchingMembers(t, name, k, col, pms[..|pms| - 1]) +
      (if last.Atomic? && FirstValue(t, name, k, col) == Text(last.name) then {last} else {})
  }

  /** All parent members member value `k` is attached to by the parent groups `ps`. */
  function MemberParentsSpec(t: Frame, name: string, ps: seq<Composite>, k: Cell): set<Member>
    requires t.Valid() && name in t.cols && k in t.cols[name]
    requires forall p | p in ps :: p.Base? && p.name in t.cols
  {
    if |ps| == 0 then {}
    else
      var last := ps[|ps| - 1];
      MemberParentsSpec(t, name, ps[..|ps| - 1], k) + MatchingMembers(t, name, k, last.name, last.members)
  }

  /** `member_parents[mn]` with the raw value `mn`: the dictionary is keyed by
      strings, so only a string that is one of its keys finds its entry. */
  predicate Filed(memberParents: map<string, set<Member>>, k: Cell) {
    k.Text? && k.s in memberParents
  }

  /** What dictionary entry `s` receives from the members `pms` of column `col`:
      the members the raw string value `s` is attached to, when the column
      `name` holds that string. */
  function MatchingAt(t: Frame, name: string, s: string, col: string, pms: seq<Member>): set<Member>
    requires t.Valid() && name in t.cols && col in t.cols
  {
    if Text(s) in t.cols[name] then MatchingMembers(t, name, Text(s), col, pms) else {}
  }

  /** What dictionary entry `s` receives from all the parent groups `ps`. */
  function MemberParentsAt(t: Frame, name: string, ps: seq<Composite>, s: string): set<Member>
    requires t.Valid() && name in t.cols
    requires forall p | p in ps :: p.Base? && p.name in t.cols
  {
    if Text(s) in t.cols[name] then MemberParentsSpec(t, name, ps, Text(s)) else {}
  }

  lemma {:induction false} MatchingMembersMeaning(t: Frame, name: string, k: Cell, col: string, pms: seq<Member>)
    requires t.Valid() && name in t.cols && col in t.cols && k in t.cols[name]
    ensures forall m :: m in MatchingMembers(t, name, k, col, pms) <==>
      m in pms && m.Atomic? && FirstValue(t, name, k, col) == Text(m.name)
  {
    if |pms| > 0 {
      var last := pms[|pms| - 1];
      assert forall m | m in pms :: m in pms[..|pms| - 1] || m == last;
      MatchingMembersMeaning(t, name, k, col, pms[..|pms| - 1]);
    }
  }

  /** A member value is attached to member m exactly when some parent group
      holds m and the value's first row holds m's name, as a string, in that
      group's column. */
  lemma {:induction false} MemberParentsMeaning(t: Frame, name: string, ps: seq<Composite>, k: Cell)
    requires t.Valid() && name in t.cols && k in t.cols[name]
    requires forall p | p in ps :: p.Base? && p.name in t.cols
    ensures forall m :: m in MemberParentsSpec(t, name, ps, k) <==>
      exists p :: p in ps && m in p.members && m.Atomic? && FirstValue(t, name, k, p.name) == Text(m.name)
  {
    if |ps| > 0 {
      var last := ps[|ps| - 1];
      assert forall p | p in ps :: p in ps[..|ps| - 1] || p == last;
      MemberParentsMeaning(t, name, ps[..|ps| - 1], k);
      MatchingMembersMeaning(t, name, k, last.name, last.members);
    }
  }

  /** The innermost loop of `fill_member_parents`: every member value whose
      first `col` cell is the parent member's name receives that member; it
      raises `KeyError` (`None`) when such a value is not a key of the
      dictionary, a number value among them. */
  method AddParentMember(t: Frame, name: string, keys: seq<Cell>, col: string, pm: Member,
                         memberParents: map<string, set<Member>>) returns (r: Option<map<string, set<Member>>>)
    requires t.Valid() && name in t.cols && col in t.cols && pm.Atomic?
    requires forall k | k in keys :: k in t.cols[name]
    requires forall k | k in t.cols[name] :: k in keys
    ensures r.None? <==> exists k | k in t.cols[name] :: FirstValue(t, name, k, col) == Text(pm.name) && !Filed(memberParents, k)
    ensures r.Some? ==> r.value.Keys == memberParents.Keys
    ensures r.Some? ==> forall s | s in memberParents ::
      r.value[s] == if Text(s) in t.cols[name] && FirstValue(t, name, Text(s), col) == Text(pm.name)
                    then memberParents[s] + {pm} else memberParents[s]
  {
    var acc := memberParents;
    for q := 0 to |keys|
      invariant acc.Keys == memberParents.Keys
      invariant forall k | k in keys[..q] :: FirstValue(t, name, k, col) == Text(pm.name) ==> Filed(memberParents, k)
      invariant forall s | s in memberParents ::
        acc[s] == if Text(s) in keys[..q] && FirstValue(t, name, Text(s), col) == Text(pm.name)
                  then memberParents[s] + {pm} else memberParents[s]
    {
      var k := keys[q];
      assert keys[..q + 1] == keys[..q] + [k];
      if FirstValue(t, name, k, col) == Text(pm.name) {
        if !(k.Text? && k.s in acc) {
          assert k in t.cols[name] && !Filed(memberParents, k);
          return None;
        }
        acc := acc[k.s := acc[k.s] + {pm}];
      }
    }
    assert keys[..|keys|] == keys;
    r := Some(acc);
  }

  /** The member loop of `fill_member_parents` for one parent group: every
      member value gains the group's members its first row names, and the
      loop raises `KeyError` exactly when a value that is not a key is
      attached to one of them. */
  method AddGroupMembers(t: Frame, name: string, keys: seq<Cell>, p: Composite,
                         memberParents: map<string, set<Member>>) returns (r: Option<map<string, set<Member>>>)
    requires t.Valid() && name in t.cols && p.Base? && p.name in t.cols && forall m | m in p.members :: m.Atomic?
    requires forall k | k in keys :: k in t.cols[name]
    requires forall k | k in t.cols[name] :: k in keys
    ensures r.None? <==> exists k | k in t.cols[name] ::
      !Filed(memberParents, k) && MatchingMembers(t, name, k, p.name, p.members) != {}
    ensures r.Some? ==> r.value.Keys == memberParents.Keys
    ensures r.Some? ==> forall s | s in memberParents ::
      r.value[s] == memberParents[s] + MatchingAt(t, name, s, p.name, p.members)
  {
    var acc := memberParents;
    for mi := 0 to |p.members|
      invariant acc.Keys == memberParents.Keys
      invariant forall k | k in t.cols[name] && !Filed(memberParents, k) :: MatchingMembers(t, name, k, p.name, p.members[..mi]) == {}
      invariant forall s | s in memberParents :: acc[s] == memberParents[s] + MatchingAt(t, name, s, p.name, p.members[..mi])
    {
      var pm := p.members[mi];
      var next := AddParentMember(t, name, keys, p.name, pm, acc);
      if next.None? {
        var k :| k in t.cols[name] && FirstValue(t, name, k, p.name) == Text(pm.name) && !Filed(acc, k);
        MatchingMembersMeaning(t, name, k, p.name, p.members);
        assert pm in MatchingMembers(t, name, k, p.name, p.members);
        return None;
      }
      AddMemberStep(t, name, p.name, p.members, mi, memberParents, acc, next.value);
      acc := next.value;
    }
    assert p.members[..|p.members|] == p.members;
    r := Some(acc);
  }

  /** The loop step of `AddGroupMembers`: adding member `mi` extends the prefix. */
  lemma AddMemberStep(t: Frame, name: string, col: string, pms: seq<Member>, mi: nat,
                      memberParents: map<string, set<Member>>, before: map<string, set<Member>>,
                      after: map<string, set<Member>>)
    requires t.Valid() && name in t.cols && col in t.cols && mi < |pms| && pms[mi].Atomic?
    requires before.Keys == memberParents.Keys && after.Keys == memberParents.Keys
    requires forall k | k in t.cols[name] && !Filed(memberParents, k) :: MatchingMembers(t, name, k, col, pms[..mi]) == {}
    requires forall k | k in t.cols[name] :: FirstValue(t, name, k, col) == Text(pms[mi].name) ==> Filed(memberParents, k)
    requires forall s | s in memberParents :: before[s] == memberParents[s] + MatchingAt(t, name, s, col, pms[..mi])
    requires forall s | s in memberParents ::
      after[s] == if Text(s) in t.cols[name] && FirstValue(t, name, Text(s), col) == Text(pms[mi].name)
                  then before[s] + {pms[mi]} else before[s]
    ensures forall k | k in t.cols[name] && !Filed(memberParents, k) :: MatchingMembers(t, name, k, col, pms[..mi + 1]) == {}
    ensures forall s | s in memberParents :: after[s] == memberParents[s] + MatchingAt(t, name, s, col, pms[..mi + 1])
  {
    forall k | k in t.cols[name] && !Filed(memberParents, k)
      ensures MatchingMembers(t, name, k, col, pms[..mi + 1]) == {}
    {
      MatchingMembersStep(t, name, k, col, pms, mi);
    }
    AddMemberEntries(t, name, col, pms, mi, memberParents, before, after);
  }

  /** The dictionary half of `AddMemberStep`. */
  lemma AddMemberEntries(t: Frame, name: string, col: string, pms: seq<Member>, mi: nat,
                         memberParents: map<string, set<Member>>, before: map<string, set<Member>>,
                         after: map<string, set<Member>>)
    requires t.Valid() && name in t.cols && col in t.cols && mi < |pms| && pms[mi].Atomic?
    requires before.Keys == memberParents.Keys && after.Keys == memberParents.Keys
    requires forall s | s in memberParents :: before[s] == memberParents[s] + MatchingAt(t, name, s, col, pms[..mi])
    requires forall s | s in memberParents ::
      after[s] == if Text(s) in t.cols[name] && FirstValue(t, name, Text(s), col) == Text(pms[mi].name)
                  then before[s] + {pms[mi]} else before[s]
    ensures forall s | s in memberParents :: after[s] == memberParents[s] + MatchingAt(t, name, s, col, pms[..mi + 1])
  {
    forall s | s in memberParents
      ensures after[s] == memberParents[s] + MatchingAt(t, name, s, col, pms[..mi + 1])
    {
      MatchingAtStep(t, name, s, col, pms, mi);
    }
  }

  /** `MatchingMembersStep` for a dictionary entry. */
  lemma MatchingAtStep(t: Frame, name: string, s: string, col: string, pms: seq<Member>, i: nat)
    requires t.Valid() && name in t.cols && col in t.cols && i < |pms| && pms[i].Atomic?
    ensures MatchingAt(t, name, s, col, pms[..i + 1]) == MatchingAt(t, name, s, col, pms[..i]) +
      (if Text(s) in t.cols[name] && FirstValue(t, name, Text(s), col) == Text(pms[i].name) then {pms[i]} else {})
  {
    if Text(s) in t.cols[name] {
      MatchingMembersStep(t, name, Text(s), col, pms, i);
    }
  }

  /** One more member of the group adds it when its name matches. */
  lemma MatchingMembersStep(t: Frame, name: string, k: Cell, col: string, pms: seq<Member>, i: nat)
    requires t.Valid() && name in t.cols && col in t.cols && k in t.cols[name] && i < |pms|
    ensures MatchingMembers(t, name, k, col, pms[..i + 1]) == MatchingMembers(t, name, k, col, pms[..i]) +
      (if pms[i].Atomic? && FirstValue(t, name, k, col) == Text(pms[i].name) then {pms[i]} else {})
  {
    assert pms[..i + 1][..i] == pms[..i];
  }

  /** `fill_member_parents`: every dictionary entry gains exactly the parent
      members of its string value; with no parents nothing changes. It raises
      `KeyError` (`None`) exactly when a value that is not a key, a number
      value among them, is attached to some parent member. */
  method FillMemberParents(t: Frame, name: string, parents: seq<Composite>, memberParents: map<string, set<Member>>)
    returns (r: Option<map<string, set<Member>>>)
    requires t.Valid() && name in t.cols
    requires forall p | p in parents :: p.Base? && p.name in t.cols && forall m | m in p.members :: m.Atomic?
    ensures r.None? <==> exists k | k in t.cols[name] ::
      !Filed(memberParents, k) && MemberParentsSpec(t, name, parents, k) != {}
    ensures r.Some? ==> r.value.Keys == memberParents.Keys
    ensures r.Some? ==> forall s | s in memberParents ::
      r.value[s] == memberParents[s] + MemberParentsAt(t, name, parents, s)
  {
    var acc := memberParents;
    if |parents| > 0 {
      var keys := Unique(t.cols[name]);
      for pi := 0 to |parents|
        invariant acc.Keys == memberParents.Keys
        invariant forall k | k in t.cols[name] && !Filed(memberParents, k) :: MemberParentsSpec(t, name, parents[..pi], k) == {}
        invariant forall s | s in memberParents :: acc[s] == memberParents[s] + MemberParentsAt(t, name, parents[..pi], s)
      {
        var p := parents[pi];
        assert parents[..pi + 1][..pi] == parents[..pi];
        var next := AddGroupMembers(t, name, keys, p, acc);
        if next.None? {
          var k :| k in t.cols[name] && !Filed(acc, k) && MatchingMembers(t, name, k, p.name, p.members) != {};
          MemberParentsInclude(t, name, parents, k, pi);
          return None;
        }
        acc := next.value;
      }
      assert parents[..|parents|] == parents;
    }
    r := Some(acc);
  }

  /** Each parent group's matching members are among the member's parents. */
  lemma MemberParentsInclude(t: Frame, name: string, ps: seq<Composite>, k: Cell, i: nat)
    requires t.Valid() && name in t.cols && k in t.cols[name] && i < |ps|
    requires forall p | p in ps :: p.Base? && p.name in t.cols
    ensures MatchingMembers(t, name, k, ps[i].name, ps[i].members) <= MemberParentsSpec(t, name, ps, k)
  {
    MemberParentsMeaning(t, name, ps, k);
    MatchingMembersMeaning(t, name, k, ps[i].name, ps[i].members);
  }

  // ------------------------------------------------------------- the groups

  /** `CompositeBase(name, members, parents)` as `init_composite` builds it:
      member i is named `str` of the i-th distinct value of the column in
      order of first appearance, carries index i, and its parent members are
      those the dictionary entry of that name received. */
  function BaseGroup(t: Frame, name: string, ps: seq<Composite>): (g: Composite)
    requires t.Valid() && name in t.cols && forall p | p in ps :: p.Base? && p.name in t.cols
    ensures g.Base? && g.name == name
    ensures forall m | m in g.members :: m.Atomic?
  {
    var u := Unique(t.cols[name]);
    Base(name, seq(|u|, i requires 0 <= i < |u| => Atomic(i, Str(u[i]), MemberParentsAt(t, name, ps, Str(u[i])))),
         set p | p in ps)
  }

  /** The group's parents are the given groups; member i is named `str` of the
      i-th distinct value of the column, with index i; and it has parent
      member m exactly when the column holds its name as a string, some parent
      group holds m, and the first row of that string holds m's name in the
      parent's column. */
  lemma BaseGroupShape(t: Frame, name: string, ps: seq<Composite>)
    requires t.Valid() && name in t.cols && forall p | p in ps :: p.Base? && p.name in t.cols
    ensures var g := BaseGroup(t, name, ps);
      g.parents == (set p | p in ps) && |g.members| == |Unique(t.cols[name])|
    ensures var g := BaseGroup(t, name, ps);
      forall i | 0 <= i < |g.members| ::
        g.members[i].Atomic? && g.members[i].index == i && g.members[i].name == Str(Unique(t.cols[name])[i])
    ensures var g := BaseGroup(t, name, ps);
      forall i, m | 0 <= i < |g.members| ::
        m in g.members[i].parents <==> (Text(g.members[i].name) in t.cols[name] &&
          exists p :: p in ps && m in p.members && m.Atomic? && FirstValue(t, name, Text(g.members[i].name), p.name) == Text(m.name))
  {
    var u := Unique(t.cols[name]);
    forall i | 0 <= i < |u| && Text(Str(u[i])) in t.cols[name] {
      MemberParentsMeaning(t, name, ps, Text(Str(u[i])));
    }
  }

  /** The member links `BaseGroupShape` states, over the group's own parents. */
  lemma BaseGroupLinks(t: Frame, name: string, ps: seq<Composite>)
    requires t.Valid() && name in t.cols && forall p | p in ps :: p.Base? && p.name in t.cols
    ensures MemberLinks(t, name, BaseGroup(t, name, ps))
  {
    var g := BaseGroup(t, name, ps);
    var u := Unique(t.cols[name]);
    forall i, m | 0 <= i < |g.members| && g.members[i].Atomic?
      ensures m in g.members[i].parents <==> (Text(g.members[i].name) in t.cols[name] &&
        exists p :: p in g.parents && m in p.members && m.Atomic? &&
                    FirstValue(t, name, Text(g.members[i].name), p.name) == Text(m.name))
    {
      var s := Str(u[i]);
      assert g.members[i].name == s && g.members[i].parents == MemberParentsAt(t, name, ps, s);
      if Text(s) in t.cols[name] {
        MemberParentsMeaning(t, name, ps, Text(s));
      }
    }
  }

  /** The groups built so far: each is a base group named after its key, a
      column of the table, with atomic members. */
  predicate GroupsFromTable(t: Frame, groups: map<string, Composite>) {
    forall k | k in groups ::
      groups[k].Base? && groups[k].name == k && k in t.cols &&
      forall m | m in groups[k].members :: m.Atomic?
  }

  /** `set(map(lambda p: groups[p], parent_names))`, in the order of the names. */
  function ParentsOf(parentNames: seq<string>, groups: map<string, Composite>): (ps: seq<Composite>)
    requires forall p | p in parentNames :: p in groups
    ensures |ps| == |parentNames| && forall i | 0 <= i < |ps| :: ps[i] == groups[parentNames[i]]
    ensures forall q | q in ps :: exists p :: p in parentNames && q == groups[p]
  {
    seq(|parentNames|, i requires 0 <= i < |parentNames| => groups[parentNames[i]])
  }

  /** Some number value of column `name` is attached to a parent member of
      `ps`, so filing it under its raw value raises `KeyError`. */
  predicate NumberKeyLinked(t: Frame, name: string, ps: seq<Composite>)
    requires t.Valid() && name in t.cols && forall p | p in ps :: p.Base? && p.name in t.cols
  {
    exists k | k in t.cols[name] :: k.Number? && MemberParentsSpec(t, name, ps, k) != {}
  }

  /** `list(map(str, df[name].unique()))`. */
  function MemberNames(c: seq<Cell>): seq<string> {
    seq(|Unique(c)|, i requires 0 <= i < |Unique(c)| => Str(Unique(c)[i]))
  }

  /** `OrderedGroupBase(i, n, *member_parents[n])` for the i-th name n. */
  function MembersFrom(names: seq<string>, memberParents: map<string, set<Member>>): seq<Member>
    requires forall s | s in names :: s in memberParents
  {
    seq(|names|, i requires 0 <= i < |names| => Atomic(i, names[i], memberParents[names[i]]))
  }

  /** `{str(k): set() for k in member_names}` files exactly the string values. */
  lemma EmptyEntriesFileText(t: Frame, name: string, noParents: map<string, set<Member>>)
    requires t.Valid() && name in t.cols
    requires noParents == map s | s in MemberNames(t.cols[name]) :: {}
    ensures forall k | k in t.cols[name] :: Filed(noParents, k) <==> k.Text?
  {
    var values := Unique(t.cols[name]);
    forall k | k in t.cols[name] ensures Filed(noParents, k) <==> k.Text? {
      if k.Text? {
        var i := FirstIndex(values, k);
        assert MemberNames(t.cols[name])[i] == k.s;
      }
    }
  }

  /** The members built from the filled dictionary are the base group's. */
  lemma FilledMembers(t: Frame, name: string, ps: seq<Composite>,
                      noParents: map<string, set<Member>>, memberParents: map<string, set<Member>>)
    requires t.Valid() && name in t.cols && forall p | p in ps :: p.Base? && p.name in t.cols
    requires noParents == map s | s in MemberNames(t.cols[name]) :: {}
    requires memberParents.Keys == noParents.Keys
    requires forall s | s in noParents :: memberParents[s] == noParents[s] + MemberParentsAt(t, name, ps, s)
    ensures forall s | s in MemberNames(t.cols[name]) :: s in memberParents
    ensures MembersFrom(MemberNames(t.cols[name]), memberParents) == BaseGroup(t, name, ps).members
  {
    var names := MemberNames(t.cols[name]);
    forall i | 0 <= i < |names|
      ensures names[i] in memberParents
      ensures memberParents[names[i]] == MemberParentsAt(t, name, ps, names[i])
    {
      assert names[i] in noParents;
    }
  }

  /** With every string value of the column a key, the values left unfiled
      are the numbers. */
  lemma UnfiledAreNumbers(t: Frame, name: string, ps: seq<Composite>, memberParents: map<string, set<Member>>)
    requires t.Valid() && name in t.cols && forall p | p in ps :: p.Base? && p.name in t.cols
    requires forall k | k in t.cols[name] :: Filed(memberParents, k) <==> k.Text?
    ensures (exists k | k in t.cols[name] :: !Filed(memberParents, k) && MemberParentsSpec(t, name, ps, k) != {}) <==>
      NumberKeyLinked(t, name, ps)
  {
  }

  /** `init_composite`: `None` stands for the `KeyError` of a parent not built
      yet, or of a number value attached to a parent member. */
  method InitComposite(t: Frame, name: string, parentNames: seq<string>, groups: map<string, Composite>)
    returns (r: Option<Composite>)
    requires t.Valid() && name in t.cols && GroupsFromTable(t, groups)
    ensures r.Some? <==> ((forall p | p in parentNames :: p in groups) &&
      !NumberKeyLinked(t, name, ParentsOf(parentNames, groups)))
    ensures r.Some? ==> r.value == BaseGroup(t, name, ParentsOf(parentNames, groups))
  {
    if exists p | p in parentNames :: p !in groups {
      return None;
    }
    var parents := ParentsOf(parentNames, groups);
    r := ComposeBase(t, name, parents);
  }

  /** The rest of `init_composite` once the parent groups are found: the
      dictionary of member names, its filling, and the group built from it. */
  method ComposeBase(t: Frame, name: string, parents: seq<Composite>) returns (r: Option<Composite>)
    requires t.Valid() && name in t.cols
    requires forall p | p in parents :: p.Base? && p.name in t.cols && forall m | m in p.members :: m.Atomic?
    ensures r.Some? <==> !NumberKeyLinked(t, name, parents)
    ensures r.Some? ==> r.value == BaseGroup(t, name, parents)
  {
    var memberNames := MemberNames(t.cols[name]);
    var noParents := map s | s in memberNames :: {};
    EmptyEntriesFileText(t, name, noParents);
    var filled := FillMemberParents(t, name, parents, noParents);
    UnfiledAreNumbers(t, name, parents, noParents);
    if filled.None? {
      return None;
    }
    FilledMembers(t, name, parents, noParents, filled.value);
    r := Some(Base(name, MembersFrom(memberNames, filled.value), set p | p in parents));
  }

  /** `is_parent.index[is_parent]`: the labels whose entry is true, in order. */
  function TrueLabels(labels: seq<string>, row: seq<bool>): (r: seq<string>)
    requires |labels| == |row|
    ensures forall x :: x in r <==> exists c :: 0 <= c < |row| && row[c] && labels[c] == x
  {
    if |row| == 0 then []
    else
      var n := |row| - 1;
      TrueLabels(labels[..n], row[..n]) + (if row[n] then [labels[n]] else [])
  }

  /** Column `k` holds a number whose first row holds a string in a column
      that `k`'s row marks as a parent: when `init` files the number under the
      parent member of that name, the lookup raises `KeyError`. */
  predicate KeyErrorAt(t: Frame, strict: bool, k: string)
    requires t.Valid() && k in t.cols
  {
    exists v, o | v in t.cols[k] && o in t.cols && Entry(t, strict, k, o) :: v.Number? && FirstValue(t, k, v, o).Text?
  }

  /** Some column of the table raises `KeyError` when its group is built. */
  predicate RaisesKeyError(t: Frame, strict: bool)
    requires t.Valid()
  {
    exists k | k in t.cols :: KeyErrorAt(t, strict, k)
  }

  /** `init`'s loop over the rows of a parent frame: it stops at the first
      row that names a parent not built yet or raises `KeyError`, and
      otherwise gives every row label its group. */
  method BuildGroups(t: Frame, strict: bool, pf: ParentFrame) returns (r: Option<map<string, Composite>>)
    requires IsParentFrame(t, strict, pf)
    ensures r.Some? <==> ParentsBuiltFirst(t, pf) && !RaisesKeyError(t, strict)
    ensures r.Some? ==> r.value.Keys == set n | n in t.names
    ensures r.Some? ==> ColumnGroups(t, strict, r.value)
  {
    var groups := map[];
    for i := 0 to |pf.index|
      invariant OrderedUpTo(t, pf, groups, i)
      invariant ColumnGroups(t, strict, groups)
      invariant forall q | 0 <= q < i :: !KeyErrorAt(t, strict, pf.index[q])
    {
      var name := pf.index[i];
      var parentNames := TrueLabels(t.names, pf.entries[i]);
      var c := InitComposite(t, name, parentNames, groups);
      if c.None? {
        BuildStops(t, strict, pf, groups, i);
        return None;
      }
      BuildStep(t, strict, pf, groups, i);
      groups := groups[name := c.value];
    }
    BuildDone(t, strict, pf, groups);
    r := Some(groups);
  }

  /** A row of the `init` loop that builds its group keeps the loop's invariants. */
  lemma BuildStep(t: Frame, strict: bool, pf: ParentFrame, groups: map<string, Composite>, i: nat)
    requires IsParentFrame(t, strict, pf) && i < |pf.index|
    requires OrderedUpTo(t, pf, groups, i) && ColumnGroups(t, strict, groups)
    requires forall q | 0 <= q < i :: !KeyErrorAt(t, strict, pf.index[q])
    requires forall p | p in TrueLabels(t.names, pf.entries[i]) :: p in groups
    requires !NumberKeyLinked(t, pf.index[i], ParentsOf(TrueLabels(t.names, pf.entries[i]), groups))
    ensures var next := groups[pf.index[i] := BaseGroup(t, pf.index[i], ParentsOf(TrueLabels(t.names, pf.entries[i]), groups))];
      OrderedUpTo(t, pf, next, i + 1) && ColumnGroups(t, strict, next) &&
      forall q | 0 <= q < i + 1 :: !KeyErrorAt(t, strict, pf.index[q])
  {
    var g := BaseGroup(t, pf.index[i], ParentsOf(TrueLabels(t.names, pf.entries[i]), groups));
    KeyErrorIffNumberLinked(t, strict, pf, groups, i);
    StepOrder(t, pf, groups, i, g);
    StepGroups(t, strict, pf, groups, i);
  }

  /** A row of the `init` loop that fails to build its group: a parent is
      missing, so the rows are out of order, or the row raises `KeyError`. */
  lemma BuildStops(t: Frame, strict: bool, pf: ParentFrame, groups: map<string, Composite>, i: nat)
    requires IsParentFrame(t, strict, pf) && i < |pf.index|
    requires OrderedUpTo(t, pf, groups, i) && ColumnGroups(t, strict, groups)
    requires (forall p | p in TrueLabels(t.names, pf.entries[i]) :: p in groups) ==>
      NumberKeyLinked(t, pf.index[i], ParentsOf(TrueLabels(t.names, pf.entries[i]), groups))
    ensures !ParentsBuiltFirst(t, pf) || RaisesKeyError(t, strict)
  {
    if forall p | p in TrueLabels(t.names, pf.entries[i]) :: p in groups {
      KeyErrorIffNumberLinked(t, strict, pf, groups, i);
      assert KeyErrorAt(t, strict, pf.index[i]);
    } else {
      MissingParent(t, pf, groups, i);
    }
  }

  /** After the last row of the `init` loop every column has been built in
      order and without `KeyError`. */
  lemma BuildDone(t: Frame, strict: bool, pf: ParentFrame, groups: map<string, Composite>)
    requires IsParentFrame(t, strict, pf) && OrderedUpTo(t, pf, groups, |pf.index|)
    requires forall q | 0 <= q < |pf.index| :: !KeyErrorAt(t, strict, pf.index[q])
    ensures ParentsBuiltFirst(t, pf) && !RaisesKeyError(t, strict)
    ensures groups.Keys == set n | n in t.names
  {
    SameLabels(t, pf);
    forall k | k in t.cols ensures !KeyErrorAt(t, strict, k) {
      assert k in multiset(t.names);
      var q := FirstIndex(pf.index, k);
    }
  }

  /** After i rows of the `init` loop: the groups are those of the first i row
      labels, and those rows named only parents of still earlier rows. */
  predicate OrderedUpTo(t: Frame, pf: ParentFrame, groups: map<string, Composite>, i: nat)
    requires Shaped(t, pf)
  {
    i <= |pf.index| &&
    groups.Keys == (set r | 0 <= r < i :: pf.index[r]) &&
    forall r, c | 0 <= r < i && 0 <= c < |t.names| && pf.entries[r][c] :: t.names[c] in pf.index[..r]
  }

  /** Every group is the group of the column it is keyed by. */
  ghost predicate ColumnGroups(t: Frame, strict: bool, groups: map<string, Composite>)
    requires t.Valid()
  {
    GroupsFromTable(t, groups) &&
    forall k | k in groups :: k in t.cols && GroupOfColumn(t, strict, k, groups[k])
  }

  lemma StepOrder(t: Frame, pf: ParentFrame, groups: map<string, Composite>, i: nat, g: Composite)
    requires Shaped(t, pf) && i < |pf.index| && OrderedUpTo(t, pf, groups, i)
    requires forall p | p in TrueLabels(t.names, pf.entries[i]) :: p in groups
    ensures OrderedUpTo(t, pf, groups[pf.index[i] := g], i + 1)
  {
    RowParentsBuilt(t, pf, groups, i);
    assert (set r | 0 <= r < i + 1 :: pf.index[r]) == (set r | 0 <= r < i :: pf.index[r]) + {pf.index[i]};
  }

  lemma StepGroups(t: Frame, strict: bool, pf: ParentFrame, groups: map<string, Composite>, i: nat)
    requires IsParentFrame(t, strict, pf) && i < |pf.index| && ColumnGroups(t, strict, groups)
    requires forall p | p in TrueLabels(t.names, pf.entries[i]) :: p in groups
    ensures ColumnGroups(t, strict,
                         groups[pf.index[i] := BaseGroup(t, pf.index[i], ParentsOf(TrueLabels(t.names, pf.entries[i]), groups))])
  {
    var name := pf.index[i];
    var g := BaseGroup(t, name, ParentsOf(TrueLabels(t.names, pf.entries[i]), groups));
    var next := groups[name := g];
    NewGroupOfColumn(t, strict, pf, groups, i);
    forall k | k in next
      ensures next[k].Base? && next[k].name == k && k in t.cols && forall m | m in next[k].members :: m.Atomic?
      ensures GroupOfColumn(t, strict, k, next[k])
    {
      if k != name {
        assert next[k] == groups[k];
      }
    }
  }

  /** A row naming a parent that is not among the groups of the earlier rows
      breaks the order the build needs. */
  lemma MissingParent(t: Frame, pf: ParentFrame, groups: map<string, Composite>, i: nat)
    requires Shaped(t, pf) && i < |pf.index| && groups.Keys == set r | 0 <= r < i :: pf.index[r]
    requires exists p :: p in TrueLabels(t.names, pf.entries[i]) && p !in groups
    ensures !ParentsBuiltFirst(t, pf)
  {
    var p :| p in TrueLabels(t.names, pf.entries[i]) && p !in groups;
    var c :| 0 <= c < |t.names| && pf.entries[i][c] && t.names[c] == p;
  }

  /** When all the parents of row i are built, they are labels of earlier rows. */
  lemma RowParentsBuilt(t: Frame, pf: ParentFrame, groups: map<string, Composite>, i: nat)
    requires Shaped(t, pf) && i < |pf.index| && groups.Keys == set r | 0 <= r < i :: pf.index[r]
    requires forall p | p in TrueLabels(t.names, pf.entries[i]) :: p in groups
    ensures forall c | 0 <= c < |t.names| && pf.entries[i][c] :: t.names[c] in pf.index[..i]
  {
    forall c | 0 <= c < |t.names| && pf.entries[i][c] ensures t.names[c] in pf.index[..i] {
      assert t.names[c] in TrueLabels(t.names, pf.entries[i]);
      var k :| 0 <= k < i && pf.index[k] == t.names[c];
      assert pf.index[..i][k] == t.names[c];
    }
  }

  /** With the groups of the earlier rows in place, building row i raises
      `KeyError` exactly when its column has a number under a string in one
      of the columns the row marks. */
  lemma KeyErrorIffNumberLinked(t: Frame, strict: bool, pf: ParentFrame, groups: map<string, Composite>, i: nat)
    requires IsParentFrame(t, strict, pf) && i < |pf.index| && ColumnGroups(t, strict, groups)
    requires forall p | p in TrueLabels(t.names, pf.entries[i]) :: p in groups
    ensures NumberKeyLinked(t, pf.index[i], ParentsOf(TrueLabels(t.names, pf.entries[i]), groups)) <==>
      KeyErrorAt(t, strict, pf.index[i])
  {
    assert pf.entries[i] == RowOf(t, strict, pf.index[i]);
    if NumberKeyLinked(t, pf.index[i], ParentsOf(TrueLabels(t.names, pf.entries[i]), groups)) {
      LinkedNumberRaises(t, strict, pf, groups, i);
    }
    if KeyErrorAt(t, strict, pf.index[i]) {
      RaisingNumberLinked(t, strict, pf, groups, i);
    }
  }

  /** A number attached to a parent member lies under a string in a column
      the row marks. */
  lemma LinkedNumberRaises(t: Frame, strict: bool, pf: ParentFrame, groups: map<string, Composite>, i: nat)
    requires Shaped(t, pf) && i < |pf.index| && pf.entries[i] == RowOf(t, strict, pf.index[i])
    requires GroupsFromTable(t, groups)
    requires forall p | p in TrueLabels(t.names, pf.entries[i]) :: p in groups
    requires NumberKeyLinked(t, pf.index[i], ParentsOf(TrueLabels(t.names, pf.entries[i]), groups))
    ensures KeyErrorAt(t, strict, pf.index[i])
  {
    var name := pf.index[i];
    var row := pf.entries[i];
    var parentNames := TrueLabels(t.names, row);
    var ps := ParentsOf(parentNames, groups);
    var k :| k in t.cols[name] && k.Number? && MemberParentsSpec(t, name, ps, k) != {};
    var m :| m in MemberParentsSpec(t, name, ps, k);
    MemberParentsMeaning(t, name, ps, k);
    var p :| p in ps && m in p.members && m.Atomic? && FirstValue(t, name, k, p.name) == Text(m.name);
    var q :| q in parentNames && p == groups[q];
    var c :| 0 <= c < |row| && row[c] && t.names[c] == q;
    assert Entry(t, strict, name, p.name);
  }

  /** A number under a string in a column the row marks is attached to the
      member of that name in the column's group. */
  lemma RaisingNumberLinked(t: Frame, strict: bool, pf: ParentFrame, groups: map<string, Composite>, i: nat)
    requires Shaped(t, pf) && i < |pf.index| && pf.entries[i] == RowOf(t, strict, pf.index[i])
    requires ColumnGroups(t, strict, groups)
    requires forall p | p in TrueLabels(t.names, pf.entries[i]) :: p in groups
    requires KeyErrorAt(t, strict, pf.index[i])
    ensures NumberKeyLinked(t, pf.index[i], ParentsOf(TrueLabels(t.names, pf.entries[i]), groups))
  {
    var name := pf.index[i];
    var row := pf.entries[i];
    var parentNames := TrueLabels(t.names, row);
    var ps := ParentsOf(parentNames, groups);
    var v, o :| v in t.cols[name] && o in t.cols && Entry(t, strict, name, o) && v.Number? && FirstValue(t, name, v, o).Text?;
    var c := FirstIndex(t.names, o);
    assert row == RowOf(t, strict, name);
    assert row[c];
    assert o in parentNames;
    var p := groups[o];
    assert p == ps[FirstIndex(parentNames, o)];
    var w := FirstValue(t, name, v, o);
    var m := MemberNamedBy(t, strict, o, p, w);
    MemberParentsMeaning(t, name, ps, v);
    assert m in MemberParentsSpec(t, name, ps, v);
  }

  /** A string cell of a column names a member of the column's group. */
  lemma MemberNamedBy(t: Frame, strict: bool, o: string, g: Composite, w: Cell) returns (m: Member)
    requires t.Valid() && o in t.cols && GroupOfColumn(t, strict, o, g) && w in t.cols[o] && w.Text?
    ensures m in g.members && m.Atomic? && Text(m.name) == w
  {
    var j := FirstIndex(Unique(t.cols[o]), w);
    m := g.members[j];
  }

  /** `GroupSet(groups)`. */
  datatype GroupSet = GroupSet(groups: map<string, Composite>)

  /** The group a column gets: named after it, one atomic member per distinct
      value in order of first appearance, named by its `str`, with its
      position as index; parent groups named exactly like the columns its row
      marks; and member parents as `fill_member_parents` links them. */
  ghost predicate GroupOfColumn(t: Frame, strict: bool, k: string, g: Composite)
    requires t.Valid() && k in t.cols
  {
    var u := Unique(t.cols[k]);
    g.Base? && g.name == k && |g.members| == |u| &&
    (forall i | 0 <= i < |u| :: g.members[i].Atomic? && g.members[i].index == i && g.members[i].name == Str(u[i])) &&
    (forall p | p in g.parents :: p.Base? && p.name in t.cols && Entry(t, strict, k, p.name)) &&
    (forall o | o in t.cols && Entry(t, strict, k, o) :: exists p :: p in g.parents && p.Base? && p.name == o) &&
    MemberLinks(t, k, g)
  }

  /** Member i has parent member m exactly when the column holds the member's
      name as a string, m is a member of one of the group's parents, and the
      first row of that string holds m's name in the parent's column. */
  ghost predicate MemberLinks(t: Frame, k: string, g: Composite)
    requires t.Valid() && k in t.cols && g.Base?
    requires forall p | p in g.parents :: p.Base? && p.name in t.cols
  {
    forall i, m | 0 <= i < |g.members| && g.members[i].Atomic? ::
      m in g.members[i].parents <==> (Text(g.members[i].name) in t.cols[k] &&
        exists p :: p in g.parents && m in p.members && m.Atomic? && FirstValue(t, k, Text(g.members[i].name), p.name) == Text(m.name))
  }

  /** The group built for row i is the group of its column. */
  lemma NewGroupOfColumn(t: Frame, strict: bool, pf: ParentFrame, groups: map<string, Composite>, i: nat)
    requires IsParentFrame(t, strict, pf) && i < |pf.index| && GroupsFromTable(t, groups)
    requires forall p | p in TrueLabels(t.names, pf.entries[i]) :: p in groups
    ensures GroupOfColumn(t, strict, pf.index[i],
                          BaseGroup(t, pf.index[i], ParentsOf(TrueLabels(t.names, pf.entries[i]), groups)))
  {
    var name := pf.index[i];
    var parentNames := TrueLabels(t.names, pf.entries[i]);
    var ps := ParentsOf(parentNames, groups);
    var g := BaseGroup(t, name, ps);
    BaseGroupShape(t, name, ps);
    BaseGroupLinks(t, name, ps);
    var row := pf.entries[i];
    assert row == RowOf(t, strict, name);
    forall p | p in g.parents ensures p.Base? && p.name in t.cols && Entry(t, strict, name, p.name) {
      var q :| q in parentNames && p == groups[q];
      var c :| 0 <= c < |row| && row[c] && t.names[c] == q;
    }
    forall o | o in t.cols && Entry(t, strict, name, o) ensures exists p :: p in g.parents && p.Base? && p.name == o {
      var c := FirstIndex(t.names, o);
      assert row[c];
      assert o in parentNames;
      var j := FirstIndex(parentNames, o);
      assert ps[j] in g.parents;
    }
  }

  /** Every cell of the table is a string. */
  predicate TextOnly(t: Frame) {
    forall n, v | n in t.cols && v in t.cols[n] :: v.Text?
  }

  /** `init(df)`: it succeeds exactly when no two columns determine each other
      and no number is filed under a string parent, and then every column
      has its group; on a table of strings only the first condition remains. */
  method Init(t: Frame) returns (r: Option<GroupSet>)
    requires t.Valid()
    ensures r.Some? <==> NoTwins(t) && !RaisesKeyError(t, false)
    ensures TextOnly(t) ==> (r.Some? <==> NoTwins(t))
    ensures r.Some? ==> r.value.groups.Keys == set n | n in t.names
    ensures r.Some? ==> ColumnGroups(t, false, r.value.groups)
  {
    var pf := GetParentDf(t);
    var groups := BuildGroups(t, false, pf);
    if TextOnly(t) {
      TextNeverRaises(t, false);
    }
    if NoTwins(t) {
      ParentsComeFirst(t, false, pf);
    } else {
      TwinsBlockInit(t, pf);
    }
    if groups.None? {
      return None;
    }
    r := Some(GroupSet(groups.value));
  }

  /** `init` over the strict parent matrix: it fails only where a number is
      filed under a string parent, so a table of strings always succeeds. */
  method InitStrict(t: Frame) returns (r: Option<GroupSet>)
    requires t.Valid()
    ensures r.Some? <==> !RaisesKeyError(t, true)
    ensures TextOnly(t) ==> r.Some?
    ensures r.Some? ==> r.value.groups.Keys == set n | n in t.names
    ensures r.Some? ==> ColumnGroups(t, true, r.value.groups)
  {
    var pf := GetParentDfStrict(t);
    ParentsComeFirst(t, true, pf);
    var groups := BuildGroups(t, true, pf);
    if TextOnly(t) {
      TextNeverRaises(t, true);
    }
    if groups.None? {
      return None;
    }
    r := Some(GroupSet(groups.value));
  }

  /** A table of strings has no number to file under a parent member. */
  lemma TextNeverRaises(t: Frame, strict: bool)
    requires t.Valid() && TextOnly(t)
    ensures !RaisesKeyError(t, strict)
  {
    forall k | k in t.cols ensures !KeyErrorAt(t, strict, k) {
      forall v | v in t.cols[k] ensures v.Text? {
      }
    }
  }

  /** A number column under a column of strings, such as an integer id under
      a string label, makes `init` raise `KeyError`. */
  lemma NumberUnderTextRaises(t: Frame, strict: bool, k: string, o: string)
    requires t.Valid() && k in t.cols && o in t.cols && Entry(t, strict, k, o)
    requires exists v | v in t.cols[k] :: v.Number?
    requires forall v | v in t.cols[o] :: v.Text?
    ensures RaisesKeyError(t, strict)
  {
    var v :| v in t.cols[k] && v.Number?;
    assert FirstValue(t, k, v, o).Text?;
    assert KeyErrorAt(t, strict, k);
  }

  lemma SameLabels(t: Frame, pf: ParentFrame)
    requires Shaped(t, pf) && multiset(pf.index) == multiset(t.names)
    ensures (set i | 0 <= i < |pf.index| :: pf.index[i]) == set n | n in t.names
  {
    forall x | x in t.names ensures x in set i | 0 <= i < |pf.index| :: pf.index[i] {
      assert x in multiset(pf.index);
      var i := FirstIndex(pf.index, x);
    }
    forall i | 0 <= i < |pf.index| ensures pf.index[i] in t.names {
      assert pf.index[i] in multiset(pf.index);
    }
  }

  /** No two different cells of the column print alike. */
  predicate StrDistinct(c: seq<Cell>) {
    forall a, b | a in c && b in c && a != b :: Str(a) != Str(b)
  }

  /** Each member sees, per parent group `init` built, the members of that
      group named by the parent cell on the first row of the member's own
      string value: none when that cell is a number or the column does not
      hold the member's name as a string, and exactly one when the cell is a
      string and the parent column's cells print distinctly. Members are
      values here, so the parent group is required to share no member with
      the other parent groups (distinct objects in the source). */
  lemma OneParentMemberPerParentGroup(t: Frame, name: string, ps: seq<Composite>, parentParents: seq<Composite>,
                                      i: nat, p: Composite)
    requires t.Valid() && name in t.cols && forall q | q in ps :: q.Base? && q.name in t.cols
    requires i < |Unique(t.cols[name])| && p in ps
    requires forall q | q in parentParents :: q.Base? && q.name in t.cols
    requires p == BaseGroup(t, p.name, parentParents)
    requires forall q, m | q in ps && q != p && m in q.members :: m !in p.members
    ensures var s := Str(Unique(t.cols[name])[i]);
      var linked := set m | m in p.members && m in BaseGroup(t, name, ps).members[i].parents;
      (Text(s) !in t.cols[name] || FirstValue(t, name, Text(s), p.name).Number?) ==> linked == {}
    ensures var s := Str(Unique(t.cols[name])[i]);
      var linked := set m | m in p.members && m in BaseGroup(t, name, ps).members[i].parents;
      Text(s) in t.cols[name] && FirstValue(t, name, Text(s), p.name).Text? && StrDistinct(t.cols[p.name]) ==>
        linked == {p.members[FirstIndex(Unique(t.cols[p.name]), FirstValue(t, name, Text(s), p.name))]}
  {
    var u := Unique(t.cols[name]);
    var up := Unique(t.cols[p.name]);
    var s := Str(u[i]);
    var g := BaseGroup(t, name, ps);
    var linked := set m | m in p.members && m in g.members[i].parents;
    assert g.members[i].parents == MemberParentsAt(t, name, ps, s);
    if Text(s) in t.cols[name] {
      MemberParentsMeaning(t, name, ps, Text(s));
      var v := FirstValue(t, name, Text(s), p.name);
      if v.Text? && StrDistinct(t.cols[p.name]) {
        var j := FirstIndex(up, v);
        assert p.members[j].name == Str(up[j]) == v.s;
        assert p.members[j] in linked;
        forall m | m in linked ensures m == p.members[j] {
          var q :| q in ps && m in q.members && m.Atomic? && v == Text(m.name);
          NamedMemberUnique(t, p.name, parentParents, v, m);
        }
      }
    }
  }

  /** With distinctly printing cells, a string cell names a single member of
      the column's group. */
  lemma NamedMemberUnique(t: Frame, o: string, pp: seq<Composite>, v: Cell, m: Member)
    requires t.Valid() && o in t.cols && forall q | q in pp :: q.Base? && q.name in t.cols
    requires v in t.cols[o] && v.Text? && StrDistinct(t.cols[o])
    requires m in BaseGroup(t, o, pp).members && m.Atomic? && Text(m.name) == v
    ensures m == BaseGroup(t, o, pp).members[FirstIndex(Unique(t.cols[o]), v)]
  {
    var up := Unique(t.cols[o]);
    var ms := BaseGroup(t, o, pp).members;
    var l :| 0 <= l < |ms| && ms[l] == m;
    assert Str(up[l]) == v.s == Str(v);
    assert up[l] == v;
  }

  // ------------------------------------------------------------------ coords

  /** What slot `k` holds after writing `show(m)` at `m.index` for every
      member in order: the latest member with that index, `None` if none. */
  function Written(ms: seq<Member>, show: Member -> string, k: nat): (r: Option<string>)
    ensures r.None? <==> forall i | 0 <= i < |ms| :: ms[i].index != k
    ensures r.Some? ==> exists i :: 0 <= i < |ms| && ms[i].index == k && r.value == show(ms[i]) &&
                                    forall j | i < j < |ms| :: ms[j].index != k
  {
    if |ms| == 0 then None
    else if ms[|ms| - 1].index == k then Some(show(ms[|ms| - 1]))
    else Written(ms[..|ms| - 1], show, k)
  }

  /** Every member index addresses a slot of an array as long as the group. */
  predicate IndicesInRange(g: Composite) {
    forall i | 0 <= i < |g.members| :: g.members[i].index < |g.members|
  }

  function GroupCoordsSpec(g: Composite, show: Member -> string): (r: seq<Option<string>>)
    ensures |r| == |g.members|
  {
    seq(|g.members|, k requires 0 <= k < |g.members| => Written(g.members, show, k))
  }

  /** One group's entry of `coords`: `None` stands for the `IndexError` of a
      member index past the end. */
  method GroupCoords(g: Composite, show: Member -> string) returns (r: Option<seq<Option<string>>>)
    ensures r.Some? <==> IndicesInRange(g)
    ensures r.Some? ==> r.value == GroupCoordsSpec(g, show)
  {
    var names := new Option<string>[|g.members|](_ => None);
    SlotsStart(g.members, show, names[..]);
    var ok := FillSlots(g.members, show, names);
    if !ok {
      return None;
    }
    SlotsDone(g, show, names[..]);
    r := Some(names[..]);
  }

  /** The loop of `coords` over one group's members: it stops at the first
      index past the end of the array, and otherwise writes every member. */
  method FillSlots(ms: seq<Member>, show: Member -> string, names: array<Option<string>>) returns (ok: bool)
    requires names.Length == |ms| && SlotsAfter(ms, show, 0, names[..])
    modifies names
    ensures ok <==> forall j | 0 <= j < |ms| :: ms[j].index < |ms|
    ensures ok ==> SlotsAfter(ms, show, |ms|, names[..])
  {
    for i := 0 to |ms|
      invariant forall j | 0 <= j < i :: ms[j].index < |ms|
      invariant SlotsAfter(ms, show, i, names[..])
    {
      if ms[i].index >= |ms| {
        return false;
      }
      WriteMember(ms, show, i, names);
    }
    ok := true;
  }

  /** `names[m.index] = str(m)` for member i. */
  method WriteMember(ms: seq<Member>, show: Member -> string, i: nat, names: array<Option<string>>)
    requires i < |ms| && ms[i].index < names.Length
    requires SlotsAfter(ms, show, i, names[..])
    modifies names
    ensures SlotsAfter(ms, show, i + 1, names[..])
  {
    ghost var before := names[..];
    names[ms[i].index] := Some(show(ms[i]));
    WriteSlot(ms, show, i, before, names[..]);
  }

  /** The slots hold what writing the first `i` members leaves. */
  predicate SlotsAfter(ms: seq<Member>, show: Member -> string, i: nat, slots: seq<Option<string>>)
    requires i <= |ms|
  {
    forall k | 0 <= k < |slots| :: slots[k] == Written(ms[..i], show, k)
  }

  /** Empty slots are what writing no member leaves. */
  lemma SlotsStart(ms: seq<Member>, show: Member -> string, slots: seq<Option<string>>)
    requires forall k | 0 <= k < |slots| :: slots[k] == None
    ensures SlotsAfter(ms, show, 0, slots)
  {
    assert ms[..0] == [];
  }

  /** The slots after writing member i, from the slots before. */
  lemma WriteSlot(ms: seq<Member>, show: Member -> string, i: nat, before: seq<Option<string>>, after: seq<Option<string>>)
    requires i < |ms| && ms[i].index < |before|
    requires SlotsAfter(ms, show, i, before)
    requires after == before[ms[i].index := Some(show(ms[i]))]
    ensures SlotsAfter(ms, show, i + 1, after)
  {
    forall k | 0 <= k < |after| ensures after[k] == Written(ms[..i + 1], show, k) {
      WrittenStep(ms, show, i, k);
    }
  }

  /** Once every member is written the slots are the group's coordinates. */
  lemma SlotsDone(g: Composite, show: Member -> string, slots: seq<Option<string>>)
    requires |slots| == |g.members| && SlotsAfter(g.members, show, |g.members|, slots)
    ensures slots == GroupCoordsSpec(g, show)
  {
    assert g.members[..|g.members|] == g.members;
  }

  /** Writing member i changes only the slot of its index. */
  lemma WrittenStep(ms: seq<Member>, show: Member -> string, i: nat, k: nat)
    requires i < |ms|
    ensures Written(ms[..i + 1], show, k) == if ms[i].index == k then Some(show(ms[i])) else Written(ms[..i], show, k)
  {
    assert ms[..i + 1][..i] == ms[..i];
  }

  /** `GroupSet.coords`: one array per group name. */
  method Coords(gs: GroupSet, show: Member -> string) returns (r: Option<map<string, seq<Option<string>>>>)
    ensures r.Some? <==> forall k | k in gs.groups :: IndicesInRange(gs.groups[k])
    ensures r.Some? ==> r.value.Keys == gs.groups.Keys
    ensures r.Some? ==> forall k | k in r.value :: r.value[k] == GroupCoordsSpec(gs.groups[k], show)
  {
    var result := map[];
    var todo := gs.groups.Keys;
    while todo != {}
      invariant todo <= gs.groups.Keys
      invariant result.Keys == gs.groups.Keys - todo
      invariant forall k | k in result :: IndicesInRange(gs.groups[k]) && result[k] == GroupCoordsSpec(gs.groups[k], show)
      decreases |todo|
    {
      var k :| k in todo;
      var c := GroupCoords(gs.groups[k], show);
      if c.None? {
        return None;
      }
      result := result[k := c.value];
      todo := todo - {k};
    }
    r := Some(result);
  }

  /** For a group `init` built, slot i of its coordinates is member i's label. */
  lemma ColumnGroupCoords(t: Frame, strict: bool, k: string, g: Composite, show: Member -> string)
    requires t.Valid() && k in t.cols && GroupOfColumn(t, strict, k, g)
    ensures IndicesInRange(g)
    ensures GroupCoordsSpec(g, show) == seq(|g.members|, i requires 0 <= i < |g.members| => Some(show(g.members[i])))
  {
    forall i | 0 <= i < |g.members| ensures Written(g.members, show, i) == Some(show(g.members[i])) {
      assert g.members[i].index == i;
    }
  }
}
