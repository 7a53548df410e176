# Tree table engine

This project models the tree engine of the NgZorro tree-table wrapper
(`TreeTable`) in Dafny, and proves properties of that model. The table holds
a flat data source of records. Each record carries an `id`, an optional
`parentId`, a `level` (1 for a root), a mutable `expanded` flag and an
advisory `leaf` flag. The wrapper reads the list as a tree through
`parentId` and offers four groups of operations:

- **Queries**: direct children, all descendants, parent, and ancestor
  chain. These are computed on the current snapshot of the data source.
- **Visibility**: `isLeaf`, `isExpand` and `isShow`. `isShow` walks up
  through the parents as far as a level-1 record.
- **Expand/collapse**: `collapse` writes a record's `expanded` flag.
- **Selection**: cascading checkbox selection.
  - `rowToggle` flips one record.
  - It then pushes the record's new state down to every descendant.
  - It then recomputes every ancestor from that ancestor's direct children.
  - The indeterminate state is computed on demand and never stored.

Layout:

- `rows.dfy` (module `Rows`) defines the record class `Row` and the
  well-formedness of a data source. Ids must be unique, and a record must
  sit one level below the record its `parentId` resolves to. That second
  rule also rules out `parentId` cycles. The file also defines the
  termination measures of the upward and downward walks.
- `accessor.dfy` (module `NodeAccessor`) holds `getChildren`, `getParent`,
  the ancestor chain and the descendant list. The descendant list is built
  as the pre-order subtree, `Subtree`/`Forest`, with the node filtered out.
- `visibility.dfy` (module `Visibility`) holds `isLeaf`, `isExpand`,
  `isShow`, and a closed-form characterisation of `isShow` as a walk up
  the ancestor list.
- `selection.dfy` (module `Selection`) holds the selection steps as
  functions on a set of records, together with the cascade lemmas.
- `tree_table.dfy` (module `TreeTableWrapper`) holds the `TreeTable`
  class. Its fields are `dataSource` and `checkedSelection`. Its methods do
  what the source does step by step:
  - accumulate into a list;
  - loop over children or over a list of records;
  - recurse up the parents;
  - write `expanded`.
  `AddAllChildren`, `GetAllChildren`, `AddParents`, `GetParents`,
  `ToggleAllChildren`, `SelectEach`, `DeselectEach`, `ToggleParents` and
  `RowToggle` are each proved equal to the matching function or set
  expression. `Collapse` has no matching function. Its contract states the
  flag it writes and `isShow` for three groups of records: those without
  the node among their ancestors (unchanged), every record below a
  collapsed node (hidden), and, after expanding, the node's direct children
  (shown exactly when they are roots or the node is shown). Deeper records
  after an expand are not described by the contract.
- `scenario.dfy` (module `TreeTableScenario`) works through a
  three-record example:
  - a root `"1"` with the children `"2"` and `"3"`;
  - checking `"2"` and then `"3"`;
  - collapsing the root.

A record's absence (JavaScript `null`/`undefined`) is `null` of type
`Row?`. JavaScript truthiness of the flags becomes `bool`.

## Model

| member | source | states |
|---|---|---|
| NodeAccessor.ChildrenWithParent | sample/Util.Samples.Angular.AntDesign/Typings/util/zorro/tree-table-wrapper.component.ts:34 | the filter keeps exactly the records of the data source whose parentId is the given id; it is no longer than the data source and keeps records distinct |
| NodeAccessor.Children | sample/Util.Samples.Angular.AntDesign/Typings/util/zorro/tree-table-wrapper.component.ts:31-35 | getChildren: empty for an absent node; otherwise exactly the records whose parentId is the node's id |
| NodeAccessor.ChildrenInCollectionOrder | sample/Util.Samples.Angular.AntDesign/Typings/util/zorro/tree-table-wrapper.component.ts:34 | the children come in the order of the data source: each child has a position in the data source, and these positions strictly increase |
| NodeAccessor.FindById | sample/Util.Samples.Angular.AntDesign/Typings/util/zorro/tree-table-wrapper.component.ts:66 | the find by id returns the first record of the data source carrying the id (no earlier record carries it), and returns null exactly when no record carries it |
| NodeAccessor.Parent | sample/Util.Samples.Angular.AntDesign/Typings/util/zorro/tree-table-wrapper.component.ts:63-67 | getParent: the first record of the data source whose id is the node's parentId (the find by id of that parentId); none exactly when the node is absent, has no parentId, or no record carries that id |
| NodeAccessor.ChildrenParentInverse | sample/Util.Samples.Angular.AntDesign/Typings/util/zorro/tree-table-wrapper.component.ts:31-67 | with unique ids, c is a child of n exactly when c is in the data source and getParent(c) is n |
| NodeAccessor.Ancestors | sample/Util.Samples.Angular.AntDesign/Typings/util/zorro/tree-table-wrapper.component.ts:73-90 | getParents: empty for an absent node; every entry is a record of the data source |
| NodeAccessor.AncestorsAreRepeatedParents | sample/Util.Samples.Angular.AntDesign/Typings/util/zorro/tree-table-wrapper.component.ts:82-90 | entry k of getParents is the (k+1)-th repeated getParent, nearest first, and one more getParent after the last entry finds nothing |
| NodeAccessor.AncestorLevels | sample/Util.Samples.Angular.AntDesign/Typings/util/zorro/tree-table-wrapper.component.ts:82-90 | along the ancestor list of a record the level drops by exactly one per step |
| NodeAccessor.AncestorsAcyclic | sample/Util.Samples.Angular.AntDesign/Typings/util/zorro/tree-table-wrapper.component.ts:82-90 | a record of a well-formed data source is never its own ancestor, and no ancestor appears twice |
| NodeAccessor.SameLevelOnChain | sample/Util.Samples.Angular.AntDesign/Typings/util/zorro/tree-table-wrapper.component.ts:82-90 | two records on one upward chain with the same level are the same record |
| NodeAccessor.ParentOfAncestor | sample/Util.Samples.Angular.AntDesign/Typings/util/zorro/tree-table-wrapper.component.ts:85-89 | the ancestor list is closed under getParent |
| NodeAccessor.AncestorIsParentOnChain | sample/Util.Samples.Angular.AntDesign/Typings/util/zorro/tree-table-wrapper.component.ts:85-89 | every ancestor is the parent of the node or of another ancestor |
| NodeAccessor.RemoveAll | sample/Util.Samples.Angular.AntDesign/Typings/util/zorro/tree-table-wrapper.component.ts:46 | remove(item === node): keeps exactly the entries other than the node and keeps entries distinct |
| NodeAccessor.AllChildren | sample/Util.Samples.Angular.AntDesign/Typings/util/zorro/tree-table-wrapper.component.ts:41-48 | getAllChildren: empty for an absent node and never contains the node itself |
| NodeAccessor.ForestMembers | sample/Util.Samples.Angular.AntDesign/Typings/util/zorro/tree-table-wrapper.component.ts:55-56 | the records appended for the children are exactly those in the subtree of one of the children |
| NodeAccessor.DescendsThroughChild | sample/Util.Samples.Angular.AntDesign/Typings/util/zorro/tree-table-wrapper.component.ts:53-57 | reaching a record from some child of n (the child itself or below it) is the same as having n among its ancestors |
| NodeAccessor.SiblingChainsDisjoint | sample/Util.Samples.Angular.AntDesign/Typings/util/zorro/tree-table-wrapper.component.ts:55-56 | no record lies on or below two different children of the same record |
| NodeAccessor.SubtreeMembers | sample/Util.Samples.Angular.AntDesign/Typings/util/zorro/tree-table-wrapper.component.ts:53-57 | what addAllChildren appends for n is n plus exactly the records that have n as an ancestor |
| NodeAccessor.SubtreeDistinct | sample/Util.Samples.Angular.AntDesign/Typings/util/zorro/tree-table-wrapper.component.ts:53-57 | addAllChildren appends every record at most once |
| NodeAccessor.ForestDistinct | sample/Util.Samples.Angular.AntDesign/Typings/util/zorro/tree-table-wrapper.component.ts:55-56 | the subtrees of distinct children together hold no record twice |
| NodeAccessor.AllChildrenMembers | sample/Util.Samples.Angular.AntDesign/Typings/util/zorro/tree-table-wrapper.component.ts:41-57 | getAllChildren of a record holds exactly the records that have it as an ancestor, each exactly once |
| NodeAccessor.AllChildrenUnfold | sample/Util.Samples.Angular.AntDesign/Typings/util/zorro/tree-table-wrapper.component.ts:41-57 | a descendant of n is a direct child c of n or a descendant of such a c, and conversely |
| NodeAccessor.DescendantLevel | sample/Util.Samples.Angular.AntDesign/Typings/util/zorro/tree-table-wrapper.component.ts:41-57 | every descendant is a record of the data source at a deeper level than n |
| Visibility.IsLeaf | sample/Util.Samples.Angular.AntDesign/Typings/util/zorro/tree-table-wrapper.component.ts:107-111 | isLeaf is the stored leaf flag, false for an absent node |
| Visibility.IsExpand | sample/Util.Samples.Angular.AntDesign/Typings/util/zorro/tree-table-wrapper.component.ts:117-121 | isExpand is the stored expanded flag, false for an absent node |
| Visibility.IsShowWalk | sample/Util.Samples.Angular.AntDesign/Typings/util/zorro/tree-table-wrapper.component.ts:127-138 | isShow holds exactly when the walk up the ancestor list reaches a level-1 record (the record itself when its level is 1) and every ancestor stepped onto is expanded; an unresolved parent or a collapsed ancestor on the way makes it false |
| Visibility.ShownThroughStep | sample/Util.Samples.Angular.AntDesign/Typings/util/zorro/tree-table-wrapper.component.ts:132-137 | one step of isShow: through an expanded parent, the walk from a non-root continues as the parent's own walk |
| Visibility.CollapsedAncestorHides | sample/Util.Samples.Angular.AntDesign/Typings/util/zorro/tree-table-wrapper.component.ts:127-138 | a collapsed ancestor at level 1 or deeper makes isShow false |
| Selection.Toggle | sample/Util.Samples.Angular.AntDesign/Typings/util/zorro/tree-table-wrapper.component.ts:145 | checkedSelection.toggle flips membership of the record and changes no other membership |
| Selection.AllChildrenChecked | sample/Util.Samples.Angular.AntDesign/Typings/util/zorro/tree-table-wrapper.component.ts:182-187 | isChildrenAllChecked: the record has at least one direct child and every direct child is selected |
| Selection.IsRowIndeterminate | sample/Util.Samples.Angular.AntDesign/Typings/util/zorro/tree-table-wrapper.component.ts:193-200 | isRowIndeterminate: some direct child is selected and some is not; false for an absent node, for a record without children, and whenever all children are checked |
| Selection.DownCascade | sample/Util.Samples.Angular.AntDesign/Typings/util/zorro/tree-table-wrapper.component.ts:153-161 | toggleAllChildren: every descendant takes the node's current membership; no other membership changes |
| Selection.Recompute | sample/Util.Samples.Angular.AntDesign/Typings/util/zorro/tree-table-wrapper.component.ts:170-174 | one parent step: the parent is selected exactly when isChildrenAllChecked holds for it; no other membership changes |
| Selection.UpCascadeFrame | sample/Util.Samples.Angular.AntDesign/Typings/util/zorro/tree-table-wrapper.component.ts:166-176 | toggleParents changes the membership of ancestors only |
| Selection.AllChildrenCheckedSameChildren | sample/Util.Samples.Angular.AntDesign/Typings/util/zorro/tree-table-wrapper.component.ts:182-187 | isChildrenAllChecked depends only on the membership of the direct children |
| Selection.UpCascadeAncestors | sample/Util.Samples.Angular.AntDesign/Typings/util/zorro/tree-table-wrapper.component.ts:166-176 | after toggleParents every ancestor is selected exactly when isChildrenAllChecked holds for it in the final selection |
| Selection.DescendantsAreNotAncestors | sample/Util.Samples.Angular.AntDesign/Typings/util/zorro/tree-table-wrapper.component.ts:146-147 | the downward and upward cascades of a record of the data source touch disjoint records |
| Selection.RowToggleFlips | sample/Util.Samples.Angular.AntDesign/Typings/util/zorro/tree-table-wrapper.component.ts:144-148 | after rowToggle the node's own membership is the opposite of before |
| Selection.RowToggleDescendants | sample/Util.Samples.Angular.AntDesign/Typings/util/zorro/tree-table-wrapper.component.ts:144-161 | after rowToggle on a record of the data source every descendant has the node's new membership |
| Selection.RowToggleAncestors | sample/Util.Samples.Angular.AntDesign/Typings/util/zorro/tree-table-wrapper.component.ts:144-176 | after rowToggle every ancestor is selected exactly when it has a direct child and all its direct children are selected |
| Selection.RowToggleOthers | sample/Util.Samples.Angular.AntDesign/Typings/util/zorro/tree-table-wrapper.component.ts:144-176 | rowToggle leaves every record that is not the node, a descendant or an ancestor as it was |
| TreeTableWrapper.TreeTable.constructor | sample/Util.Samples.Angular.AntDesign/Typings/util/zorro/tree-table-wrapper.component.ts:23-25 | a table over the given data source with nothing checked |
| TreeTableWrapper.TreeTable.IsSelected | sample/Util.Samples.Angular.AntDesign/Typings/util/zorro/tree-table-wrapper.component.ts:206-208 | isSelected is membership in checkedSelection; false for an absent node |
| TreeTableWrapper.TreeTable.AddAllChildren | sample/Util.Samples.Angular.AntDesign/Typings/util/zorro/tree-table-wrapper.component.ts:53-57 | appends the node and then each child's subtree, in child order (the pre-order subtree) |
| TreeTableWrapper.TreeTable.GetAllChildren | sample/Util.Samples.Angular.AntDesign/Typings/util/zorro/tree-table-wrapper.component.ts:41-48 | returns getAllChildren: empty for null, never the node itself, and for a record of the data source exactly its descendants, each once |
| TreeTableWrapper.TreeTable.AddParents | sample/Util.Samples.Angular.AntDesign/Typings/util/zorro/tree-table-wrapper.component.ts:82-90 | appends the ancestor chain of the node to the list |
| TreeTableWrapper.TreeTable.GetParents | sample/Util.Samples.Angular.AntDesign/Typings/util/zorro/tree-table-wrapper.component.ts:73-77 | returns the repeated getParent chain, nearest first, ending where getParent finds nothing; for a record of the data source without the node and without repeats |
| TreeTableWrapper.TreeTable.Collapse | sample/Util.Samples.Angular.AntDesign/Typings/util/zorro/tree-table-wrapper.component.ts:97-101 | writes expanded := expand on a present node and nothing else; visibility of every record without the node among its ancestors is unchanged; collapsing (level 1 or deeper) hides all records below; after expanding, a child is shown exactly when it is a root or the node is shown |
| TreeTableWrapper.TreeTable.ToggleAllChildren | sample/Util.Samples.Angular.AntDesign/Typings/util/zorro/tree-table-wrapper.component.ts:153-161 | the new selection is the downward cascade of the old one; the data source stays well-formed |
| TreeTableWrapper.TreeTable.SelectEach | sample/Util.Samples.Angular.AntDesign/Typings/util/zorro/tree-table-wrapper.component.ts:157 | the loop of select calls adds exactly the listed records |
| TreeTableWrapper.TreeTable.DeselectEach | sample/Util.Samples.Angular.AntDesign/Typings/util/zorro/tree-table-wrapper.component.ts:160 | the loop of deselect calls removes exactly the listed records |
| TreeTableWrapper.TreeTable.ToggleParents | sample/Util.Samples.Angular.AntDesign/Typings/util/zorro/tree-table-wrapper.component.ts:166-176 | the new selection is the upward cascade of the old one; the data source stays well-formed |
| TreeTableWrapper.TreeTable.RowToggle | sample/Util.Samples.Angular.AntDesign/Typings/util/zorro/tree-table-wrapper.component.ts:144-148 | the node is flipped; every descendant equals the node's new state; every ancestor is selected exactly when it has a child and all its children are selected; nothing else changes; the data source stays well-formed |
| TreeTableScenario.SampleChildren | sample/Util.Samples.Angular.AntDesign/Typings/util/zorro/tree-table-wrapper.component.ts:31-35 | in the three-record example, getChildren of the root yields records 2 and 3, in that order |
| TreeTableScenario.SampleFirstToggle | sample/Util.Samples.Angular.AntDesign/Typings/util/zorro/tree-table-wrapper.component.ts:144-200 | in the example, checking record 2 on an empty selection selects only record 2, and the root becomes indeterminate |
| TreeTableScenario.SampleSecondToggle | sample/Util.Samples.Angular.AntDesign/Typings/util/zorro/tree-table-wrapper.component.ts:144-200 | checking record 3 next selects all three records, and the root is no longer indeterminate |

## Left out

- The Angular component decorator, its template and the import lines are
  not modelled (lines 1-18). Neither is the base `Table` class
  (`table-wrapper.component.ts` is not part of this model). From that class
  the model keeps only the two members the engine uses: `dataSource` and
  `checkedSelection`.
- `checkedSelection` is the selection model's set of checked records. Its
  `toggle`, `select`, `deselect` and `isSelected` become set operations on
  `set<Row>`. Change events and the selection model's multiple/single mode
  are not modelled.
- The selection holds records by object identity. The record fields other
  than `expanded` are `const`, because the engine never writes them.
- `remove` from the common helper module is modelled as the filter it is
  used for (`RemoveAll`). That module is not part of this model.
- The list passed to `addAllChildren`/`addParents` is a JavaScript array
  the callee pushes into. It is modelled as a value: the method takes the
  list and returns the extended list. Aliasing of that array is therefore
  not captured, but only the local `result` array ever reaches it.
- Cyclic data is outside the model. The source recurses without a guard,
  so on such data its walks can fail to terminate: `getAllChildren(n)` when
  a `parentId` cycle lies below `n`; `getParents(n)` and `toggleParents(n)`
  when the upward chain from `n` enters a cycle; `rowToggle(n)` in either
  case, since it runs `getAllChildren(n)` (through `toggleAllChildren`) and
  then `toggleParents(n)`; `isShow(n)` only when that upward chain enters a
  cycle of expanded records none of which has level 1. The model instead
  requires a well-formed data source
  (`WellFormed`): unique ids, and every record one level below its
  resolved parent. The pure queries `getChildren`, `getParent`, `isLeaf`,
  `isExpand` and `isRowIndeterminate` need no such precondition.
- JavaScript truthiness is modelled as booleans and nulls.
  - `if (!node)` tests for `null`.
  - `!!expand` is a `bool` parameter.
  - `leaf` and `expanded` are `bool`.
  - `find` returning `undefined` is `null`.
  - A missing `parentId` is `None`, and it never matches a record.
- TreeTableWrapper.TreeTable.RowToggle: `rowToggle(null)` is not modelled;
  the node is a `Row`. In the source, toggling `null` would put `null` into
  the selection.
- TreeTableWrapper.TreeTable.RowToggle: the clause about descendants is
  stated only for a node of the data source. For a record outside the data
  source, well-formedness does not constrain the records around it, so a
  record can be both its child and its ancestor, and the upward cascade can
  undo the downward one.
- TreeTableWrapper.TreeTable.GetAllChildren: the characterisation "exactly
  the descendants, each once" is stated for a node of the data source. For
  any other node only "never the node itself" and the equation with
  `AllChildren` are stated.
- TreeTableWrapper.TreeTable.Collapse: the visibility clauses are stated
  for records of a well-formed data source. The hiding clause requires the
  collapsed node to have level 1 or deeper. A record above level 1 is never
  reached by the walk, which stops at the first level-1 record. After an
  expand, the contract describes the node's direct children only; records
  deeper below follow by unfolding `IsShow` and are not stated.
- Visibility.IsShow carries no contract of its own. Its meaning is stated
  by `IsShowWalk`, `ShownThroughStep` and `CollapsedAncestorHides`.
- Selection.UpCascade carries no contract of its own. It is toggleParents
  (lines 166-176) on values: the same recursion, recomputing the parent and
  then continuing from it. Its meaning is stated by `UpCascadeFrame` (only
  ancestors change) and `UpCascadeAncestors` (each ancestor ends selected
  exactly when all its children are), and `TreeTable.ToggleParents` is
  proved equal to it.
- Selection.RowToggleResult carries no contract of its own. It is rowToggle
  (lines 144-148) on values: toggle, then the downward cascade, then the
  upward one, in the source's order. Its meaning is stated by
  `RowToggleFlips`, `RowToggleDescendants`, `RowToggleAncestors` and
  `RowToggleOthers`, and `TreeTable.RowToggle` is proved equal to it.
- NodeAccessor.Subtree and NodeAccessor.Forest carry no contract of their
  own. They are what addAllChildren (lines 53-57) pushes, in pre-order.
  Their meaning is stated by `SubtreeMembers`, `SubtreeDistinct`,
  `ForestMembers` and `ForestDistinct`, and `TreeTable.AddAllChildren` is
  proved equal to list + `Subtree`.
- Rendering, change detection and the order in which the template calls
  these predicates are outside the model.
