# sakkara relation engine — a Dafny model

sakkara builds hierarchical Bayesian models over data frames. Its relation
engine looks at the categorical columns of a frame and works out which
column determines which: a column is a *parent* of another when it has a
single value per value of the other, and two columns that determine each
other are *twins*. For each column the engine builds a *group*. A group's
members are the column's distinct values in order of first appearance, and
each member is linked to the parent members it belongs to. Groups are
combined into *representations*: reduced node sets with no node that is a
parent of another and no pair of twins. Pairs of groups yield member-pair
tables and index mappings, which move values between the axes of the model.

The repository holds several historical versions of this engine. They do not
agree with each other, so each is modelled on its own terms, one Dafny
module per source file:

| module | source | form |
|---|---|---|
| `ChainRelation` | `sakkara/relation.py` | single-parent chain: relations, hierarchical order, `init_groupset`, member frames, `coords` |
| `GroupRel` | `sakkara/relation/group.py` | `class Group` with the parent, child and twin sets and a mapping table |
| `GroupSets` | `sakkara/relation/groupset.py` | parent matrix, member parents over raw cells, `init_composite`, `init`, `coords` (methods with loops) |
| `Representations` | `sakkara/relation/representation.py` | `class Representation<N>` with `reduce`, `__eq__`, `get_order` and the set operations |
| `AtomicNodes` | `sakkara/relation/atomicnode.py`, `cellnode.py` | `class AtomicNode` and the `World` snapshot the node queries read |
| `NodePairs` | `sakkara/relation/nodepair.py` | node pairs over representation values: members, relations, caching, `generate_nodepair`, `reduced_repr` |
| `Nodes` | `sakkara/relation/node.py` | n-d member arrays, `get_mapping`, `map_to`, and the earlier pair logic |
| `Composites` | `sakkara/relation/composite.py`, `ordered.py` | `CompositePair.init_members` (counter loops), `map_from`, `CompositeBase` |
| `CompositeGroups` | `sakkara/relation/compositegroup.py` | `parent_child_init`, `same_level_init`, `init_members`, `map_from` |
| `Seqs`, `Tables` | (helpers) | `Option`, distinct values in first-appearance order, a stable sort, filters, columns and functional dependency |

A data frame is a table of equally long columns (`Tables.Table`,
`ChainRelation.Frame`), and an n-d numpy array is a flat sequence plus a shape
(`Nodes.NdArray`). composite.py:5, compositegroup.py:5 and ordered.py:3
import the base classes `GroupPair`, `AtomicGroup` and `GroupBase` from
sakkara/relation/group.py, but in this version that file defines only
`Group`. The relations those classes would supply are therefore taken as
given functions. These are `GroupPair.internal_relation`,
`a_parent_b`, `get_parents`, `get_representation_groups` and member
`is_parent_to`, bundled as `Composites.Relations` and
`CompositeGroups.GroupRelations`. The atomic nodes that the node and
node-pair queries read form a `World`: a function from node id to node
fields. Object identity is therefore an id.

The group-set version keeps the cells of a group column as the frame
stores them (`GroupSets.Cell`: a string or an integer). `fill_member_parents`
compares the raw first-row cell of a parent column with `str` of a parent
member, and files a member value by its raw value in a dictionary keyed by
`str` of the values (sakkara/relation/groupset.py:46-47, 56). So an integer
parent cell links no parent member, and an integer member value that some
parent member's name matches raises `KeyError`. The model follows that code.
`str` of a group and of a member is taken to be its name: `GroupBase` and
`OrderedGroupBase`, which would define it, are not part of this model. On that
reading, `init` raises `KeyError` on the frame of
tests/components/test_relation.py:33-44: it has the integer column `e` under
the string column `g` (`GroupSets.NumberUnderTextRaises`).

tests/components/test_relation.py:104-105 expects the identical columns `o`
and `o_copy` not to mark each other as parents. `get_parent_df` marks them,
and the model follows the code. See Findings.

## Model

| member | source | states |
|---|---|---|
| `Seqs.Unique` | sakkara/relation/groupset.py:51 | `unique()`: distinct, exactly the values of the column, no longer than it |
| `Seqs.UniqueOrder` | sakkara/relation/groupset.py:51 | distinct values come in the order of their first appearance |
| `Seqs.SortBy` | sakkara/relation/groupset.py:35 | the sort by rank is sorted by the key and a permutation of its input |
| `Tables.WithColumn` | sakkara/relation.py:79-81 | `df[c] = v` replaces an existing column in place or appends a new last one; the other columns are unchanged |
| `Tables.MaxNuniqueIsMax` | sakkara/relation/groupset.py:32 | `nunique().max()` bounds every group's count and is attained; it is 0 exactly on an empty table |
| `Tables.MaxNuniqueOneIffDetermines` | sakkara/relation/groupset.py:32 | the maximum is 1 exactly when the column functionally determines the other, and above 1 exactly when it does not on a non-empty table |
| `ChainRelation.GetRelations` | sakkara/relation.py:55-62 | the first column is the group; parents and children are drawn from the other columns |
| `ChainRelation.GetRelationsSpec` | sakkara/relation.py:58-60 | a column is a parent iff the group determines it, and a child iff the table is non-empty and the group does not determine it |
| `ChainRelation.GetRelationsPartition` | sakkara/relation.py:58-60 | on a non-empty table parents and children split the other columns exactly; distinct inputs give distinct outputs |
| `ChainRelation.Trace` | sakkara/relation.py:65-74 | `trace_hierarchical_order` keeps the pivot and uses only input columns |
| `ChainRelation.TracePermutation` | sakkara/relation.py:65-74 | on a non-empty table the order is a permutation of the input columns |
| `ChainRelation.TraceEmptyTable` | sakkara/relation.py:65-74 | on an empty table only the pivot remains |
| `ChainRelation.TraceSplit` | sakkara/relation.py:65-74 | the order is distinct, and a column comes before the pivot exactly when the pivot determines it |
| `ChainRelation.ChainRelations` | sakkara/relation.py:55-62 | on nested chain columns the parents are the coarser columns and the children the finer ones, whatever the argument order |
| `ChainRelation.TraceChain` | sakkara/relation.py:65-74 | on nested chain columns the order is the chain from coarsest to finest, whatever the argument order |
| `ChainRelation.MemberNamed` | sakkara/relation.py:92-93 | the member dictionary lookup: a member of that name, or none exists |
| `ChainRelation.RootMembers` | sakkara/relation.py:86 | one member per distinct value of the first column |
| `ChainRelation.RootMembersEnumerate` | sakkara/relation.py:86 | member i is the i-th distinct value with id i |
| `ChainRelation.ChildMembers` | sakkara/relation.py:89-94 | one member per distinct value of the column |
| `ChainRelation.ChildMembersLinked` | sakkara/relation.py:91-94 | member ids follow first appearance, and each member's parent is the parent member named by its value's first row |
| `ChainRelation.GroupsUpTo` | sakkara/relation.py:86-95 | the first `n` groups, one per ordered column and named after it |
| `ChainRelation.BuildChain` | sakkara/relation.py:86-95 | one group per ordered column, named after it |
| `ChainRelation.ChainLinks` | sakkara/relation.py:86-95 | the first group has no parent and the root members; every later group's parent is the group built just before it, and its members are looked up in that group |
| `ChainRelation.BuildChainMembers` | sakkara/relation.py:86-95 | every group of the chain enumerates its column and points into its parent's members |
| `ChainRelation.BuildGroups` | sakkara/relation.py:86-95 | the loop that appends the groups builds exactly `BuildChain` (its invariant: after `k` rounds, exactly `GroupsUpTo(k)`) |
| `ChainRelation.BuildGroupset` | sakkara/relation.py:84-99 | the groups built over the traced order, keyed by name together with the `column` group, are exactly `ChainGroupset` |
| `ChainRelation.ChainGroupset` | sakkara/relation.py:84-99 | whatever the order, `column` is keyed to the group of the coefficient columns |
| `ChainRelation.ColumnGroup` | sakkara/relation.py:97 | the `column` group lists the coefficient columns with ids 0..n-1 and has no parent |
| `ChainRelation.ByName` | sakkara/relation.py:99 | `{g.name: g}` keys every group by name, a later group winning |
| `ChainRelation.ByNameDistinct` | sakkara/relation.py:99 | with distinct names every group is found under its own name |
| `ChainRelation.Extended` | sakkara/relation.py:78-82 | the copy gains `obs` = 0..n-1 and `global` = "global" and keeps every column |
| `ChainRelation.InitGroupsetSpec` | sakkara/relation.py:77-99 | the result holds the `column` group |
| `ChainRelation.InitGroupset` | sakkara/relation.py:77-99 | `init_groupset` computes the specification |
| `ChainRelation.InitGroupsetGroups` | sakkara/relation.py:77-99 | every ordered column has its group, named after it, enumerating its values and linked to its parent chain |
| `ChainRelation.ChainGroupNamed` | sakkara/relation.py:99 | each chain column is found under its name with well-formed members |
| `ChainRelation.SetColumn` | sakkara/relation.py:24-25 | `df.loc[:, c] = v` sets that column and leaves the others unchanged |
| `ChainRelation.Join` | sakkara/relation.py:34 | a left join keeps the left columns in front, unchanged; after them comes each right column, with the `rsuffix` rename on a clash, whose row i is the right row at left row i's key (`Missing` when the key is not a right row) |
| `ChainRelation.GetMembers` | sakkara/relation.py:21-27 | names and ids per member, plus the parent's names and ids when the group has a parent and parents are asked for |
| `ChainRelation.ParentMapping` | sakkara/relation.py:29-36 | empty for a root group; otherwise one row per member carrying its parent's name and id; the columns of higher ancestors are stated by `ChainRelation.ParentMappingAncestor` |
| `ChainRelation.ParentMappingAncestor` | sakkara/relation.py:29-36 | for a well-formed chain and any ancestor name `a`, the mapping has one row per member, and columns `a` and `a_id` hold at row i the name and id of member i's ancestor in group `a`. This holds through every join up the chain, as tests/test_relation.py:62-79 expects of the hierlinreg version. Stated when no intermediate members frame has a label that shadows `a` or `a_id` or is renamed onto them |
| `ChainRelation.PlainChainJoinClear` | sakkara/relation.py:22-34 | names that hold no `_` and differ from the requested ancestor below it, like the fixture's, never clash with the `_id` labels or `_l` renames the joins introduce |
| `ChainRelation.IsParentAncestors` | sakkara/relation.py:38-40 | `is_parent` is false for a root group and true for every ancestor's name |
| `ChainRelation.IsParentOwnName` | sakkara/relation.py:38-40 | a group with a parent reports its own name as a parent column |
| `ChainRelation.Coords` | sakkara/relation.py:50-52 | one array per group, slot i holding member i's name |
| `GroupRel.Group.constructor` | sakkara/relation/group.py:17-23 | a new group is its own twin, has no parents or children, and maps member i to i |
| `GroupRel.Group.Length` | sakkara/relation/group.py:72-73 | the length is the row count of every mapping column |
| `GroupRel.Group.AddChild` | sakkara/relation/group.py:26-32 | only the children set grows, by exactly the child |
| `GroupRel.Group.AddParent` | sakkara/relation/group.py:34-43 | the parent is added; its column is written with the given indices exactly when they fit; nothing else changes |
| `GroupRel.Group.AddTwin` | sakkara/relation/group.py:45-52 | the twin is added with the identity mapping 0..len-1; parents and children unchanged |
| `GroupRel.GroupOrderStrictTotal` | sakkara/relation/group.py:75-76 | the name order is irreflexive, asymmetric, transitive and total on distinct names |
| `GroupRel.AddTwiceIsIdempotent` | sakkara/relation/group.py:26-52 | repeating `add_twin` or `add_child` changes nothing |
| `GroupSets.RowOf` | sakkara/relation/groupset.py:31-32 | a matrix row holds the entry of every column, in column order |
| `GroupSets.ParentEntryDetermines` | sakkara/relation/groupset.py:32 | an entry is true iff the columns differ and the row's column determines the other |
| `GroupSets.FillParentMatrix` | sakkara/relation/groupset.py:29-32 | the loop fills row k with the entries of column k |
| `GroupSets.BuildParentFrame` | sakkara/relation/groupset.py:28-36 | after the rank sort the frame is a parent frame |
| `GroupSets.SortRowsIsParentFrame` | sakkara/relation/groupset.py:34-36 | sorting the rows by rank keeps the column order, permutes the rows and orders them by rank |
| `GroupSets.GetParentDf` | sakkara/relation/groupset.py:28-36 | columns as given, rows a permutation by non-decreasing rank, entry (g, o) iff o ≠ g and g determines o; no diagonal entry |
| `GroupSets.GetParentDfStrict` | sakkara/relation/groupset.py:28-36 | the same matrix with mutually determining columns left unmarked |
| `GroupSets.IdenticalColumnsAreTwins` | sakkara/relation/groupset.py:32 | two identical columns of a non-empty table mark each other as parents |
| `GroupSets.ParentRankBelow` | sakkara/relation/groupset.py:34 | a parent that does not determine its child marks strictly fewer parents |
| `GroupSets.ParentsComeFirst` | sakkara/relation/groupset.py:34-35 | without twins, or with the strict matrix, every parent row precedes its children |
| `GroupSets.TwinsBlockInit` | sakkara/relation/groupset.py:72-74 | with twins, some row names a parent that no earlier row built |
| `GroupSets.Digits` | sakkara/relation/groupset.py:51 | `str` of an integer cell: a non-empty string of decimal digits |
| `GroupSets.FirstValue` | sakkara/relation/groupset.py:42 | `groupby(name).first()[col][k]` is a raw cell of the parent column |
| `GroupSets.MatchingMembersMeaning` | sakkara/relation/groupset.py:46 | a parent member matches a value iff the raw first-row cell of the value in the parent column is the string naming the member; an integer cell matches none |
| `GroupSets.MemberParentsMeaning` | sakkara/relation/groupset.py:42-47 | a value is attached to m iff some parent group holds m and the value's first-row cell in that group's column is the string naming m |
| `GroupSets.AddParentMember` | sakkara/relation/groupset.py:46-47 | the inner loop adds the parent member to exactly the entries whose value's first cell names it; it raises `KeyError` iff such a value is no key of the dictionary, such as an integer |
| `GroupSets.AddGroupMembers` | sakkara/relation/groupset.py:45-47 | every entry gains exactly the group's members its string value is attached to; `KeyError` iff some value that is no key is attached to one |
| `GroupSets.FillMemberParents` | sakkara/relation/groupset.py:42-47 | every entry gains exactly the parent members of its string value, and the keys stay; with no parents nothing changes; `KeyError` iff a value that is no key is attached to some parent member |
| `GroupSets.EmptyEntriesFileText` | sakkara/relation/groupset.py:56 | `{str(k): set()}` has an entry under the raw value exactly for the string values |
| `GroupSets.FilledMembers` | sakkara/relation/groupset.py:59 | the members built from the filled dictionary are those of the base group |
| `GroupSets.BaseGroup` | sakkara/relation/groupset.py:59-60 | `CompositeBase(name, …)` is a base group of that name with atomic members |
| `GroupSets.BaseGroupShape` | sakkara/relation/groupset.py:50-60 | the given parents; member i named `str` of the i-th distinct value, with index i; parent member m iff the column holds that name as a string and its first row names m in some parent group's column |
| `GroupSets.BaseGroupLinks` | sakkara/relation/groupset.py:50-60 | the same member links, over the parents the group carries |
| `GroupSets.ParentsOf` | sakkara/relation/groupset.py:53 | the parent groups are the groups named, in order |
| `GroupSets.InitComposite` | sakkara/relation/groupset.py:50-60 | fails iff some parent is not built yet (`KeyError` at line 53) or an integer value is attached to a parent member (`KeyError` at line 47); otherwise the base group |
| `GroupSets.ComposeBase` | sakkara/relation/groupset.py:51-60 | with the parent groups found: fails iff an integer value is attached to a parent member, and otherwise builds the base group |
| `GroupSets.TrueLabels` | sakkara/relation/groupset.py:74 | the labels whose entry is true |
| `GroupSets.BuildGroups` | sakkara/relation/groupset.py:70-76 | the loop succeeds iff every parent row comes first and no column has an integer whose first row holds a string in a marked column; then every column has its group, with member names, indices, group parents and member links |
| `GroupSets.KeyErrorIffNumberLinked` | sakkara/relation/groupset.py:42-47 | with the earlier groups built, row i raises `KeyError` iff its column has an integer whose first row holds a string in a column the row marks |
| `GroupSets.Init` | sakkara/relation/groupset.py:63-76 | `init` succeeds iff no two columns determine each other and `KeyError` is not raised in the sense above; on a table of strings, iff no two columns determine each other; then one group per column |
| `GroupSets.InitStrict` | sakkara/relation/groupset.py:63-76 | over the strict matrix `init` fails only by that `KeyError`, and always succeeds on a table of strings |
| `GroupSets.TextNeverRaises` | sakkara/relation/groupset.py:46-47 | a table of strings raises no `KeyError` |
| `GroupSets.NumberUnderTextRaises` | sakkara/relation/groupset.py:46-47 | an integer column marked under a column of strings makes `init` raise `KeyError` |
| `GroupSets.OneParentMemberPerParentGroup` | sakkara/relation/groupset.py:42-47 | from each parent group a member gets no parent member when its parent cell is an integer or the column does not hold its name as a string; when the cell is a string and the parent column prints distinctly, exactly the member that cell names |
| `GroupSets.Written` | sakkara/relation/groupset.py:21-23 | a slot holds the label of the last member with that index, and is empty when there is none |
| `GroupSets.GroupCoordsSpec` | sakkara/relation/groupset.py:21-23 | one slot per member |
| `GroupSets.GroupCoords` | sakkara/relation/groupset.py:20-24 | fails exactly on an out-of-range member index; otherwise the slots are as written |
| `GroupSets.FillSlots` | sakkara/relation/groupset.py:21-23 | the member loop fails iff some member index lies past the array's end, and otherwise leaves each slot holding the label of the last member with that index |
| `GroupSets.Coords` | sakkara/relation/groupset.py:18-25 | one array per group name, each that group's slots |
| `GroupSets.ColumnGroupCoords` | sakkara/relation/groupset.py:18-25 | for a group `init` built, slot i holds member i's label |
| `Representations.EnumeratesCard` | sakkara/relation/representation.py:22 | a listing of a set is as long as the set |
| `Representations.LaterTwins` | sakkara/relation/representation.py:23 | `has_twin[i]`: exactly the later positions whose node is a twin of node i |
| `Representations.TwinFlags` | sakkara/relation/representation.py:23-27 | the flag array after the twin loop is `Flags` after all rounds: each round clears the later twins of a node still set |
| `Representations.FlagsPending` | sakkara/relation/representation.py:25-27 | an unvisited flag is still set iff no surviving earlier node is its twin |
| `Representations.SurvivesIff` | sakkara/relation/representation.py:23-28 | a node survives iff no earlier survivor is its twin |
| `Representations.ReducedSubsetNoParents` | sakkara/relation/representation.py:20-28 | `reduce` only removes nodes, and no remaining node is a parent of another |
| `Representations.ReducedKeepsAll` | sakkara/relation/representation.py:20-28 | with no parent among the nodes and no twin pair along the listing, `reduce` keeps every node |
| `Representations.ReducedKeepsEarliestTwin` | sakkara/relation/representation.py:23-28 | each dropped node has an earlier surviving twin; no two survivors, earlier to later, are twins |
| `Representations.ReducedTwinFree` | sakkara/relation/representation.py:23-28 | with a symmetric twin relation no two distinct survivors are twins |
| `Representations.ReduceIdempotent` | sakkara/relation/representation.py:20-29 | reducing a reduced set removes nothing, whatever listing is used |
| `Representations.ReduceSingleton` | sakkara/relation/representation.py:20-29 | a singleton stays unless the node is its own parent |
| `Representations.EqualsMeaning` | sakkara/relation/representation.py:40-55 | different sets are equal iff every node of the symmetric difference has a twin there |
| `Representations.MatchMatrix` | sakkara/relation/representation.py:46-51 | cell (r, c) holds whether the node at the smaller index is a twin of the node at the larger; the last diagonal cell is never written and stays false |
| `Representations.Enumerate` | sakkara/relation/representation.py:22 | `list(set)`: some listing of the set |
| `Representations.Representation.constructor` | sakkara/relation/representation.py:8-11 | the nodes as given, updated, expected length their count |
| `Representations.Representation.Reduce` | sakkara/relation/representation.py:20-29 | the nodes become the reduction of the old nodes along the listing; not updated |
| `Representations.Representation.Refresh` | sakkara/relation/representation.py:14-15 | the `if self.updated: self.reduce()` guard shared by the queries |
| `Representations.Representation.GetOrder` | sakkara/relation/representation.py:13-18 | a pending reduction of the old nodes is done first, otherwise the nodes stay; the result lists the reduced nodes sorted by key, without parent pairs; the recorded length is kept |
| `Representations.Representation.GetNodes` | sakkara/relation/representation.py:35-38 | a pending reduction of the old nodes is done first, otherwise the nodes stay; the result is the nodes, without parent pairs; the recorded length is kept |
| `Representations.Representation.Length` | sakkara/relation/representation.py:72-75 | a pending reduction of the old nodes is done first, otherwise the nodes stay; the result is the size of that set; the recorded length is kept |
| `Representations.Representation.ExpectedLength` | sakkara/relation/representation.py:77-78 | the size recorded before reduction |
| `Representations.Representation.Equals` | sakkara/relation/representation.py:40-55 | the receiver is reduced first, and then the result is the twin-matching test; equal sets compare equal |
| `Representations.Representation.Copy` | sakkara/relation/representation.py:57-60 | a fresh unreduced representation over the reduced nodes |
| `Representations.Representation.SetNodes` | sakkara/relation/representation.py:31-33 | the nodes replaced and the expected length recomputed |
| `Representations.Representation.Add` | sakkara/relation/representation.py:84-87 | the node added, updated, expected length the new size |
| `Representations.Representation.Update` | sakkara/relation/representation.py:89-92 | the set added, updated, expected length the new size |
| `Representations.Representation.Discard` | sakkara/relation/representation.py:94-97 | the node removed if present, updated, expected length the new size |
| `Representations.Representation.Pop` | sakkara/relation/representation.py:99-103 | some node removed and returned, or the `KeyError` of an empty set |
| `Representations.Representation.Remove` | sakkara/relation/representation.py:105-108 | the node removed, or the `KeyError` of a missing node with nothing changed |
| `Representations.Representation.Clear` | sakkara/relation/representation.py:110-113 | empty, updated, expected length 0 |
| `Representations.Representation.Union` | sakkara/relation/representation.py:115-118 | a new representation over the reduced nodes united with the set, expected length its size |
| `Representations.Representation.Intersection` | sakkara/relation/representation.py:120-123 | the same, for the intersection |
| `Representations.Representation.Difference` | sakkara/relation/representation.py:125-128 | the same, for the difference |
| `AtomicNodes.ParentRel` | sakkara/relation/atomicnode.py:43-44 | `x.is_parent_to(y)` iff x is among y's parents |
| `AtomicNodes.TwinRel` | sakkara/relation/atomicnode.py:61-62 | `x.is_twin_to(y)` iff x is among y's twins |
| `AtomicNodes.HashKey` | sakkara/relation/atomicnode.py:64-65 | the `hash` that `__lt__` and the sort in `get_order` use, taken as the node id |
| `AtomicNodes.AtomicNode.IsParentTo` | sakkara/relation/atomicnode.py:43-44 | `self in other.get_parents()`: the node's id is among the other's parents (agreement in `AtomQueriesAgree`) |
| `AtomicNodes.AtomicNode.IsTwinTo` | sakkara/relation/atomicnode.py:61-62 | `self in other.get_twins()`: the node's id is among the other's twins (agreement in `AtomQueriesAgree`) |
| `AtomicNodes.AtomicNode.Less` | sakkara/relation/atomicnode.py:64-65 | `__lt__` compares the hash keys |
| `AtomicNodes.LessStrictTotal` | sakkara/relation/atomicnode.py:64-65 | `__lt__` is irreflexive, asymmetric and transitive, and ranks any two nodes of different ids |
| `AtomicNodes.AtomicNode.constructor` | sakkara/relation/atomicnode.py:14-26 | the parents are copied; children and twins start empty |
| `AtomicNodes.AtomicNode.Cell` | sakkara/relation/cellnode.py:7-8 | a cell node is an atomic node without members |
| `AtomicNodes.AtomicNode.AddChild` | sakkara/relation/atomicnode.py:37-38 | only the children set grows |
| `AtomicNodes.AtomicNode.AddTwin` | sakkara/relation/atomicnode.py:55-56 | only the twin set grows |
| `AtomicNodes.AtomicNode.Representation` | sakkara/relation/atomicnode.py:49-50 | a fresh, unreduced singleton representation over the node's relations |
| `AtomicNodes.AtomQueriesAgree` | sakkara/relation/atomicnode.py:43-62 | the node queries agree with the relations representations use; the singleton reduces to itself unless the node is its own parent |
| `AtomicNodes.AddTwiceIsIdempotent` | sakkara/relation/atomicnode.py:37-56 | adding a child or twin twice is adding it once |
| `NodePairs.Listing` | sakkara/relation/nodepair.py:168 | `list(nodes)` lists the set |
| `NodePairs.Reduce` | sakkara/relation/representation.py:20-28 | the reduced set is a subset without parent pairs |
| `NodePairs.RepUnion` | sakkara/relation/representation.py:115-118 | the union of two representations is unreduced and over both reduced sets |
| `NodePairs.RepEqReflexive` | sakkara/relation/representation.py:40-43 | representations with the same reduced nodes are equal |
| `NodePairs.RepEq` | sakkara/relation/representation.py:40-55 | `==` of two representations: equal reduced node sets, or a non-empty symmetric difference in which every node has a twin (properties in `Representations.EqualsMeaning`, `NodePairs.RepEqReflexive`) |
| `NodePairs.Representation` | sakkara/relation/nodepair.py:132-143 | `{self}` unreduced for an atom; for a pair the cached value, else the child operand's when the other operand is its parent (`b` tested first), else the union of both (properties in `NestedPairDelegates`, `UnrelatedPairParent`, `CachedRepresentation`) |
| `NodePairs.Parents` | sakkara/relation/nodepair.py:110-116 | a pair's parents hold every parent of its representation nodes, and those nodes when there are several |
| `NodePairs.Twins` | sakkara/relation/nodepair.py:121-124 | a pair's twins are exactly the twins of its representation nodes |
| `NodePairs.IsParentTo` | sakkara/relation/nodepair.py:97-108 | an atom is a parent iff it is among the other node's parents; a pair answers by `PairIsParentTo` on its operands |
| `NodePairs.PairIsParentTo` | sakkara/relation/nodepair.py:98-108 | never for an equal representation; a nested pair asks its child operand; otherwise both operands are parents, or one is a parent and the other a twin (properties in `PairNotRelatedToEqualRep`, `NestedPairDelegates`, `UnrelatedPairParent`) |
| `NodePairs.IsTwinTo` | sakkara/relation/nodepair.py:126-129 | an atom is a twin iff among the other node's twins; a pair is never a twin of a node with the same reduced nodes, and otherwise is one iff both operands are |
| `NodePairs.AtomQueries` | sakkara/relation/atomicnode.py:43-62 | on atomic nodes the queries are the parent and twin sets, and the representation is the unreduced singleton |
| `NodePairs.PairNotRelatedToEqualRep` | sakkara/relation/nodepair.py:97-129 | a pair is no parent of a node with an equal representation, and no twin of one with the same nodes |
| `NodePairs.NestedPairDelegates` | sakkara/relation/nodepair.py:97-103 | for a nested pair `is_parent_to` is the child component's, and the representation is the child's |
| `NodePairs.UnrelatedPairParent` | sakkara/relation/nodepair.py:97-108 | an unrelated pair is a parent only when an operand is one and the other is a parent or twin; both parents suffice; its representation is the union |
| `NodePairs.UnrelatedAtomsRep` | sakkara/relation/nodepair.py:132-142 | the pair of two atoms without parent or twin links between them is represented by both atoms |
| `NodePairs.Children` | sakkara/relation/nodepair.py:118-119 | the intended get_children: the children all representation nodes share |
| `NodePairs.ChildrenAsWritten` | sakkara/relation/nodepair.py:118-119 | as written, a pair has no children at all |
| `NodePairs.ChildrenAsWrittenLosesSharedChild` | sakkara/relation/nodepair.py:118-119 | as written, get_children loses a child both representation nodes share |
| `NodePairs.Len` | sakkara/relation/nodepair.py:160-161 | `__len__`: 1 for an atom, the sum of the operands' for a pair (its meaning in `LenCountsLeaves`) |
| `NodePairs.LenCountsLeaves` | sakkara/relation/nodepair.py:160-161 | a node's length counts its atomic leaves and is at least 1 |
| `NodePairs.PairMembers` | sakkara/relation/nodepair.py:73-95 | the members chosen by the strategy are a well-shaped array |
| `NodePairs.Members` | sakkara/relation/nodepair.py:73-95 | a node's members are a well-shaped array when they exist |
| `NodePairs.OperandMembers` | sakkara/relation/nodepair.py:73-95 | a pair's members from its operands' are well shaped; `b`'s are only consulted where `a` has none or the representations differ |
| `NodePairs.MembersDegenerate` | sakkara/relation/nodepair.py:81-87 | when `a` has no members: an empty array if `b` has none either, and a failure if building `b`'s fails; when `a` has members and the representations are equal: `a`'s members, whether or not `b`'s can be built |
| `NodePairs.FirstParentMeaning` | sakkara/relation/nodepair.py:48 | `next(filter(...))` finds the first parent member whenever some member is a parent |
| `NodePairs.ParentChildPairsMeaning` | sakkara/relation/nodepair.py:42-50 | succeeds iff every child member has a parent member; entry i pairs the first such parent with child i |
| `NodePairs.ParentChildMembers` | sakkara/relation/nodepair.py:33-50 | parent-child members have the child's shape, and entry i pairs the first parent member of child i with it |
| `NodePairs.SameLevelMembers` | sakkara/relation/nodepair.py:52-71 | unrelated operands give shape a.shape ++ b.shape with entry (ia, ib) the pair (a[ia], b[ib]) |
| `NodePairs.RepresentationOf` | sakkara/relation/nodepair.py:131-143 | `representation()` returns the representation and stores it in `rep_nodes` |
| `NodePairs.CachedRepresentation` | sakkara/relation/nodepair.py:131-143 | caching keeps the representation and its nodes and is idempotent |
| `NodePairs.CachedParentAgrees` | sakkara/relation/nodepair.py:97-108 | `is_parent_to` is the same before and after caching |
| `NodePairs.CachedTwinAgrees` | sakkara/relation/nodepair.py:126-129 | `is_twin_to` is the same before and after caching |
| `NodePairs.CachedSetsAgree` | sakkara/relation/nodepair.py:110-124 | parents and twins are the same before and after caching |
| `NodePairs.CachedMembersAgree` | sakkara/relation/nodepair.py:73-95 | members and length are the same before and after caching |
| `NodePairs.CachedTargetAgrees` | sakkara/relation/nodepair.py:97-129 | caching the target node changes no `is_parent_to` or `is_twin_to` answer |
| `NodePairs.Chain` | sakkara/relation/nodepair.py:168-171 | the folding loop builds a pair |
| `NodePairs.GenerateNodePair` | sakkara/relation/nodepair.py:164-173 | `generate_nodepair` lists the representation's nodes and returns the pair built from that listing |
| `NodePairs.ChainLeaves` | sakkara/relation/nodepair.py:168-171 | the left-nested pair has the listed nodes as leaves, in order |
| `NodePairs.Generated` | sakkara/relation/nodepair.py:164-173 | the node itself for a singleton, `IndexError` for an empty set, and otherwise the left-nested pair carrying the representation (its meaning in `GeneratedMeaning`) |
| `NodePairs.GeneratedMeaning` | sakkara/relation/nodepair.py:164-173 | fails only on an empty representation; the leaves are the listing; length equals the representation's; a pair keeps the given representation |
| `NodePairs.ReducedRepr` | sakkara/relation/nodepair.py:145-154 | an operand with the pair's representation and length, reduced in turn; else a generated pair when the length differs from the representation's; else the pair (its meaning in `ReducedReprTight`) |
| `NodePairs.ReducedReprTight` | sakkara/relation/nodepair.py:145-154 | `reduced_repr` yields an atom or a node as long as its representation |
| `NodePairs.AtomReducedRepr` | sakkara/relation/atomicnode.py:52-53 | an atomic node is its own reduced form, of length 1 |
| `Nodes.ProductConcat` | sakkara/relation/node.py:166 | the element count of a concatenated shape is the product of the counts |
| `Nodes.Unravel` | sakkara/relation/node.py:69-70 | `unravel_index` yields an in-bounds multi-index |
| `Nodes.RavelUnravel` | sakkara/relation/node.py:69-70 | raveling an unraveled flat index gives it back |
| `Nodes.RavelBelow` | sakkara/relation/node.py:65-70 | a raveled in-bounds index lies below the element count |
| `Nodes.UnravelRavel` | sakkara/relation/node.py:69-70 | unraveling a raveled multi-index gives it back |
| `Nodes.ArgMax` | sakkara/relation/node.py:66 | `argmax` is a valid position |
| `Nodes.ArgMaxNotBeatenLater` | sakkara/relation/node.py:66 | no later score beats the chosen one |
| `Nodes.ArgMaxIntIsFirstMax` | sakkara/relation/node.py:66 | on integers argmax is the first position of the maximum |
| `Nodes.MappingSpec` | sakkara/relation/node.py:60-70 | fails iff there are members but no other members; otherwise one index array per other axis, each as long as the members, within bounds, raveling to argmax of the scores |
| `Nodes.GetMapping` | sakkara/relation/node.py:60-70 | the loop over the members computes the mapping specification |
| `Nodes.FirstParent` | sakkara/relation/node.py:143 | the first parent member of a child, or none when no member is its parent |
| `Nodes.ParentChildPairs` | sakkara/relation/node.py:137-145 | succeeds iff every child has a parent member, one entry per child pairing the first parent |
| `Nodes.ParentChildMemberPairs` | sakkara/relation/node.py:137-145 | the loop computes the parent-child pairs |
| `Nodes.PairsPrefixFails` | sakkara/relation/node.py:143 | one child without a parent member makes the whole construction fail |
| `Nodes.PairRow` | sakkara/relation/node.py:163-164 | row i pairs a_i with every b_j |
| `Nodes.SameLevelPairs` | sakkara/relation/node.py:158-166 | the combinations number `|a|*|b|` |
| `Nodes.SameLevelAt` | sakkara/relation/node.py:161-164 | entry `i*|b|+j` is the pair (a_i, b_j) |
| `Nodes.SameLevelAtMultiIndex` | sakkara/relation/node.py:158-166 | after the reshape to a.shape ++ b.shape, entry (ia, ib) is the pair (a[ia], b[ib]) |
| `Nodes.SameLevelMemberPairs` | sakkara/relation/node.py:158-166 | the nested loops compute the combinations |
| `Nodes.Rep` | sakkara/relation/node.py:216-224 | a representation is non-empty and made of the node's leaves |
| `Nodes.IsParentTo` | sakkara/relation/node.py:193-201 | an atom is a parent iff it is among the other node's parents; a pair never of a node with its own representation; a nested pair asks its child operand; unrelated operands, either one (properties in `PairNotParentOfSameRep`, `NestedPairActsAsChild`, `PairParents`) |
| `Nodes.PairNotParentOfSameRep` | sakkara/relation/node.py:193-196 | a pair is no parent of a node with the same representation |
| `Nodes.NestedPairActsAsChild` | sakkara/relation/node.py:193-224 | a nested pair stands for its child component and asks it for `is_parent_to` |
| `Nodes.Parents` | sakkara/relation/node.py:203-210 | a pair's parents hold every parent of its representation groups, and those groups when there are several |
| `Nodes.PairParents` | sakkara/relation/node.py:203-210 | every parent of a representation node is a parent of the pair; so are the nodes themselves when there are several |
| `Nodes.Children` | sakkara/relation/node.py:212-214 | the intended get_children: the children all representation nodes share |
| `Nodes.ChildrenAsWrittenLosesSharedChild` | sakkara/relation/node.py:212-214 | as written, get_children loses a child both representation nodes share |
| `Nodes.ChildrenAsWritten` | sakkara/relation/node.py:212-214 | as written, a pair has no children at all |
| `Nodes.ReducedRepr` | sakkara/relation/node.py:226-232 | the reduced form is no larger than the node |
| `Nodes.ReducedReprKeepsRep` | sakkara/relation/node.py:226-232 | the reduced form has the same representation, and reducing again changes nothing |
| `Nodes.Members` | sakkara/relation/node.py:168-191 | members, where they exist, are a well-shaped array |
| `Nodes.MembersSkipUnneededOperand` | sakkara/relation/node.py:177-183 | a pair whose operands have the same representation takes `a`'s members even where `b`'s cannot be built |
| `Nodes.MapTo` | sakkara/relation/node.py:72-98 | the parent-to-child error iff the representations differ and the node is a parent; the unrelated error iff neither is a parent; every mapping index within the other's axis bounds |
| `Nodes.ArgMaxSoleOverlap` | sakkara/relation/node.py:85-88 | a sole non-empty overlap is where argmax lands |
| `Nodes.AtomMembers` | sakkara/relation/node.py:263-264 | atomic members as nodes, in order |
| `Nodes.SelfOverlapAt` | sakkara/relation/node.py:85-88 | with distinct members, each member's best overlap is itself |
| `Nodes.SelfOverlapMapping` | sakkara/relation/node.py:60-70 | mapping distinct members onto themselves is the identity |
| `Nodes.MapToSelfIsIdentity` | sakkara/relation/node.py:85-88 | an atomic node with distinct members maps onto itself by the identity |
| `Composites.FirstParentIndex` | sakkara/relation/composite.py:30 | the first parent member of a child member, or none |
| `Composites.ParentChildPrefixSpec` | sakkara/relation/composite.py:28-34 | after n iterations: success iff the first n children have parents; entry i is child i paired with its first parent, parent slot by orientation |
| `Composites.ParentChildPairsSucceed` | sakkara/relation/composite.py:28-30 | the loop succeeds iff every child member has a parent member |
| `Composites.ParentChildPairsShape` | sakkara/relation/composite.py:28-34 | one member per child member with index i; the parent sits in the `a` slot exactly when it is `a`, and is the first parent |
| `Composites.ParentChildMembers` | sakkara/relation/composite.py:28-34 | the loop computes the parent-child pairs |
| `Composites.ParentChildFailureStays` | sakkara/relation/composite.py:29-30 | once a child has no parent member the construction stays failed |
| `Composites.Row` | sakkara/relation/composite.py:38-43 | row i: (a_i, b_j) with counter value `i*|b|+j` |
| `Composites.CellIsProduct` | sakkara/relation/composite.py:37-43 | the running counter is `i*|b|+j` |
| `Composites.SameLevelKept` | sakkara/relation/composite.py:36-43 | (a_i, b_j) is kept iff the shared parent members number the shared parent groups |
| `Composites.SameLevelBound` | sakkara/relation/composite.py:36-43 | at most `|a|*|b|` members |
| `Composites.SameLevelOnlyKept` | sakkara/relation/composite.py:36-43 | every member is a kept combination with its counter value |
| `Composites.SameLevelCartesian` | sakkara/relation/composite.py:36-43 | without shared parents every combination is kept: the Cartesian product |
| `Composites.SameLevelMembers` | sakkara/relation/composite.py:37-43 | the nested loops with the counter compute the kept combinations |
| `Composites.SameLevelRow` | sakkara/relation/composite.py:39-43 | the inner loop keeps row i's combinations and advances the counter by `|b|` |
| `Composites.InitMembers` | sakkara/relation/composite.py:24-45 | `init_members` computes its specification |
| `Composites.NewPair` | sakkara/relation/composite.py:20-22 | a pair is built iff its members can be initialised, holding them |
| `Composites.PairLength` | sakkara/relation/composite.py:47-48 | a parent-child pair has one member per child member; a same-level pair at most `|a|*|b|` |
| `Composites.InitMembersArePairs` | sakkara/relation/composite.py:24-45 | every member built is a pair member |
| `Composites.Components` | sakkara/relation/composite.py:55-57 | the `a` or `b` component of every member, in order |
| `Composites.MapFrom` | sakkara/relation/composite.py:53-59 | `map_from` computes its specification |
| `Composites.MapFromSides` | sakkara/relation/composite.py:53-57 | `map_from(a)` and `map_from(b)` are the components, `len(self)` long |
| `Composites.MapFromOther` | sakkara/relation/composite.py:58-59 | for another composite, the `b` components of the pair with it |
| `CompositeGroups.ZipMembers` | sakkara/relation/compositegroup.py:105-106 | zip stops at the shorter list; entry i pairs a_i and b_i under a_i's index |
| `CompositeGroups.ParentChildInit` | sakkara/relation/compositegroup.py:48-69 | the loop computes the parent-child pairs for the given orientation |
| `CompositeGroups.SameLevelInit` | sakkara/relation/compositegroup.py:71-91 | the loops compute the kept combinations |
| `CompositeGroups.InitMembers` | sakkara/relation/compositegroup.py:93-115 | `init_members` computes its specification |
| `CompositeGroups.NewGroupPair` | sakkara/relation/compositegroup.py:44-46 | a pair is built iff its members can be initialised, holding them |
| `CompositeGroups.SameRepresentationMembers` | sakkara/relation/compositegroup.py:102-106 | equal representation groups zip the members by position under a's index |
| `CompositeGroups.ParentChildMembersSpec` | sakkara/relation/compositegroup.py:59-69 | succeeds iff every child member has a parent member; one member per child with index i; the parent in the `a` slot iff `a` is the parent; the first parent is chosen |
| `CompositeGroups.SameLevelMembersSpec` | sakkara/relation/compositegroup.py:81-91 | (a_i, b_j) at counter `Composites.Cell(|b|, i, j)` (which is `i*|b|+j`) is a member iff the shared counts agree |
| `CompositeGroups.NoCommonParentsCartesian` | sakkara/relation/compositegroup.py:74-89 | without common parents the members are the full Cartesian product |
| `CompositeGroups.InitMembersArePairs` | sakkara/relation/compositegroup.py:93-115 | every member built is a pair member |
| `CompositeGroups.MapFrom` | sakkara/relation/compositegroup.py:117-136 | `map_from` computes its specification for both kinds of group |
| `CompositeGroups.MapFromSides` | sakkara/relation/compositegroup.py:117-121 | `map_from(a)` and `map_from(b)` are the components, in member order |
| `CompositeGroups.AtomicMapFrom` | sakkara/relation/compositegroup.py:135-136 | an atomic group maps through the pair with the other group |

## Left out

- I/O, pandas and numpy internals: tables are sequences of columns, and arrays are a flat sequence plus a shape. `groupby`, `first`, `nunique`, joins, `ravel`, `reshape`, `unravel_index`, `argmax` and `np.vectorize` are written out as functions on those values.
- The minibatch methods of `Group` (sakkara/relation/group.py:54-66). They draw random PyMC indices.
- `functools.cache`: the cached methods of node.py are pure functions. The `rep_nodes` field of nodepair.py is a field of a `Pair` value, and `NodePairs.RepresentationOf` returns the pair with the field filled. Aliasing between nodes that share a cached representation object is not modelled.
- Hash order: `AtomicNode.__lt__` compares runtime hashes, which is no stable order. `AtomicNodes.HashKey` is the node id. `list(set)` in representation.py is an arbitrary listing, chosen by `Representations.Enumerate`. In the node-pair value model it is the ascending id order, `NodePairs.Listing`.
- `sort_values` is modelled by a stable sort. pandas promises only a sorted permutation, and the contracts state no more than that.
- `__str__`, `get_key` and the string joins are left out. Groups of the composite versions are compared structurally, where the source compares object identity.
- The relations of `GroupPair`, `AtomicGroup` and `GroupBase` are given functions: composite.py:5, compositegroup.py:5 and ordered.py:3 import these classes from sakkara/relation/group.py, which in this version defines only `Group`. The relations are `GroupPair.internal_relation`, `a_parent_b`, `get_parents`, `get_representation_groups` and member `is_parent_to`. `sakkara/relation/ordered.py` declares no `OrderedGroupBase`, although groupset.py imports one; it is modelled as an atomic member with an index, a name and parent members.
- NodePairs.RepEq: both sides are read reduced. `Representation.__eq__` reduces the receiver but reads `other.nodes` as stored. The model's node values always pass through `NodesOf`, so an unreduced right-hand side is not distinguished.
- The node-pair version of `map_to` is not modelled. That version would score member overlaps of `Representation` objects, which define no `>` for argmax. The node.py version is modelled, as `Nodes.MapTo`.
- Nodes.MapTo: returns the flat mapping per axis of the other node. It leaves out the final `reshape(self.get_members().shape)`, which only regroups the entries.
- Nodes.Members: promises a well-shaped array only. The strategy-by-strategy contents are proved on the near-identical node-pair version (`NodePairs.MembersDegenerate`, `NodePairs.ParentChildMembers`, `NodePairs.SameLevelMembers`), which shares the generic builders in `Nodes`.
- node.py's own `AtomicNode` (sakkara/relation/node.py:239-282) is the `Atom` case of `Nodes.Node`, reading its fields from a `World`. Its constructor and `add_child` are modelled once, by `AtomicNodes.AtomicNode`.
- `Representation.__iter__` is `GetNodes` followed by iteration, and `__str__` is left out.
- ChainRelation.GetRelations: a `Missing` cell (pandas NaN) of an input frame counts as an ordinary key and value, also in `ChainRelation.Trace`. pandas drops NaN keys in `groupby` (sakkara/relation.py:58) and `nunique` skips NaN, so on a frame with NaN in a group column the relations can differ. The contracts are about frames without NaN there; in the model `Missing` arises only from the left join of `parent_mapping`.
- ChainRelation.InitGroupset: requires every group column to be in the frame, and `GetMembers`, `ParentMapping` and `IsParent` require (through `Linked`) every member of a group with a parent to carry a parent member. The source raises `KeyError` for a missing column at `df.groupby(group)` and `df[...]` (sakkara/relation.py:58, 86). It raises `AttributeError` on `m.parent.name` (sakkara/relation.py:24-25) for a `GroupMember` built with the default `parent=None`. The model has no outcome for either error. The groups `init_groupset` builds never meet the second case (`ChainRelation.ChildMembersLinked`, `ChainRelation.InitGroupsetGroups`).
- ChainRelation.ParentMappingAncestor: the ancestor columns are stated only under `JoinClear`. `JoinClear` says that on the way up, `a` and `a_id` are neither labels of an intermediate members frame nor the `_l` renames of such labels. When a label clashes, pandas renames or shadows the column, as `ChainRelation.Join` models, and the lemma says nothing about the values.
- ChainRelation.ChildMembers: the same for `groupby(...).first()` and `unique()` (sakkara/relation.py:91-93). pandas skips NaN in both the grouping and `first()`, but `unique()` keeps it, so a NaN member would raise `KeyError` at `mapping[name]`. The model treats `Missing` as one more member value.
- GroupSets: `str` of a group and of a member is taken to be its name. It would come from `GroupBase`, which `CompositeBase` extends, and from `OrderedGroupBase`; the files they are imported from define neither in the version modelled here. Under another `__str__` the member-parent links of `fill_member_parents` and the `KeyError` cases would differ.
- Twin linking across groups: no file of this version calls `Group.add_twin` (sakkara/relation/group.py:45-52), so twin linking is not modelled beyond `GroupRel.Group.AddTwin` itself.

## Findings

| source | as written | input that shows it | evidently intended | confidence | as-written member | corrected member |
|---|---|---|---|---|---|---|
| sakkara/relation/groupset.py:32 | a column is marked as a parent of every other column it determines, so two columns that determine each other mark each other, and `init` then stops on a parent that was not built yet | a non-empty table with columns `o` and `o_copy` holding the same values; tests/components/test_relation.py:104-105 expects neither entry | mutually determining columns are twins and are not marked as parents | not executed | GroupSets.IdenticalColumnsAreTwins | GroupSets.GetParentDfStrict |
| sakkara/relation/node.py:214 | `set().intersection(...)` starts from the empty set, so a pair never has children | atoms 0 and 1, unrelated, both with child 2: the pair `(0, 1)` has no children | the children all representation nodes share, here `{2}` | not executed | Nodes.ChildrenAsWrittenLosesSharedChild | Nodes.Children |
| sakkara/relation/nodepair.py:119 | the same empty intersection as in node.py | atoms 0 and 1, unrelated, both with child 2: the pair `(0, 1)` has no children | the children all representation nodes share, here `{2}` | not executed | NodePairs.ChildrenAsWrittenLosesSharedChild | NodePairs.Children |
