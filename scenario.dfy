/**
 * A worked example on a three-record table: root "1" (level 1, expanded)
 * with the two leaf children "2" and "3". Checking both children one after
 * the other makes the root first indeterminate and then checked; collapsing
 * the root hides both children while the root stays shown.
 */
module TreeTableScenario {
  import opened Rows
  import opened NodeAccessor
  import opened Visibility
  import opened Selection
  import opened TreeTableWrapper

  /** The records of the example: a root "1" and its children "2" and "3". */
  ghost predicate SampleRows(r1: Row, r2: Row, r3: Row) {
    && r1.id == "1" && r1.parentId == None && r1.level == 1
    && r2.id == "2" && r2.parentId == Some("1") && r2.level == 2
    && r3.id == "3" && r3.parentId == Some("1") && r3.level == 2
  }

  /** getChildren of the root yields nodes 2 and 3, in collection order. */
  lemma SampleChildren(r1: Row, r2: Row, r3: Row)
    requires SampleRows(r1, r2, r3)
    ensures Children([r1, r2, r3], r1) == [r2, r3]
  {
    var ds := [r1, r2, r3];
    assert ds[1..] == [r2, r3] && ds[1..][1..] == [r3] && [r3][1..] == [];
    assert ChildrenWithParent([r3], "1") == [r3];
    assert ChildrenWithParent([r2, r3], "1") == [r2, r3];
  }

  /** The leaves of the example have no children. */
  lemma SampleLeafChildren(r1: Row, r2: Row, r3: Row, leaf: Row)
    requires SampleRows(r1, r2, r3) && (leaf == r2 || leaf == r3)
    ensures Children([r1, r2, r3], leaf) == []
  {
    var ds := [r1, r2, r3];
    assert ds[1..] == [r2, r3] && ds[1..][1..] == [r3] && [r3][1..] == [];
    assert ChildrenWithParent([r3], leaf.id) == [];
    assert ChildrenWithParent([r2, r3], leaf.id) == [];
  }

  /** Each leaf has the root as its only ancestor. */
  lemma SampleAncestors(r1: Row, r2: Row, r3: Row)
    requires SampleRows(r1, r2, r3)
    ensures WellFormed([r1, r2, r3])
    ensures Ancestors([r1, r2, r3], r2) == [r1] && Ancestors([r1, r2, r3], r3) == [r1]
  {
    var ds := [r1, r2, r3];
    assert Parent(ds, r2) == r1 && Parent(ds, r3) == r1 && Parent(ds, r1) == null;
  }

  /** A leaf of the example has no descendants. */
  lemma SampleLeafAlone(r1: Row, r2: Row, r3: Row, leaf: Row)
    requires SampleRows(r1, r2, r3) && (leaf == r2 || leaf == r3)
    ensures WellFormed([r1, r2, r3])
    ensures AllChildren([r1, r2, r3], leaf) == []
  {
    var ds := [r1, r2, r3];
    SampleAncestors(r1, r2, r3);
    SampleLeafChildren(r1, r2, r3, leaf);
    assert Subtree(ds, leaf) == [leaf];
    assert [leaf][1..] == [];
    assert RemoveAll([leaf], leaf) == [];
  }

  /**
   * Checking node 2 on an empty selection selects node 2 alone, which
   * leaves the root indeterminate.
   */
  lemma SampleFirstToggle(r1: Row, r2: Row, r3: Row)
    requires SampleRows(r1, r2, r3)
    ensures WellFormed([r1, r2, r3])
    ensures RowToggleResult([r1, r2, r3], {}, r2) == {r2}
    ensures IsRowIndeterminate([r1, r2, r3], {r2}, r1)
  {
    var ds := [r1, r2, r3];
    SampleAncestors(r1, r2, r3);
    SampleChildren(r1, r2, r3);
    SampleLeafAlone(r1, r2, r3, r2);
    assert Toggle({}, r2) == {r2};
    assert Elements(AllChildren(ds, r2)) == {};
    assert DownCascade(ds, {r2}, r2) == {r2};
    assert !AllChildrenChecked(ds, {r2}, r1) by {
      assert r3 in Children(ds, r1);
    }
    assert Recompute(ds, {r2}, r1) == {r2};
    assert UpCascade(ds, {r2}, r1) == {r2};
    assert UpCascade(ds, {r2}, r2) == {r2};
  }

  /** Checking node 3 next selects all three records; the root is no longer indeterminate. */
  lemma SampleSecondToggle(r1: Row, r2: Row, r3: Row)
    requires SampleRows(r1, r2, r3)
    ensures WellFormed([r1, r2, r3])
    ensures RowToggleResult([r1, r2, r3], {r2}, r3) == {r1, r2, r3}
    ensures !IsRowIndeterminate([r1, r2, r3], {r1, r2, r3}, r1)
  {
    var ds := [r1, r2, r3];
    SampleAncestors(r1, r2, r3);
    SampleChildren(r1, r2, r3);
    SampleLeafAlone(r1, r2, r3, r3);
    assert Toggle({r2}, r3) == {r2, r3};
    assert Elements(AllChildren(ds, r3)) == {};
    assert DownCascade(ds, {r2, r3}, r3) == {r2, r3};
    assert AllChildrenChecked(ds, {r2, r3}, r1) by {
      assert r2 in Children(ds, r1);
    }
    assert Recompute(ds, {r2, r3}, r1) == {r1, r2, r3};
    assert UpCascade(ds, {r1, r2, r3}, r1) == {r1, r2, r3};
    assert UpCascade(ds, {r2, r3}, r3) == {r1, r2, r3};
  }

  /** The example run through the table methods, starting from an empty selection. */
  method CheckBothChildren()
  {
    var r1 := new Row("1", None, 1, false, true);
    var r2 := new Row("2", Some("1"), 2, true, false);
    var r3 := new Row("3", Some("1"), 2, true, false);
    var table := new TreeTable([r1, r2, r3]);
    ghost var ds := table.dataSource;
    SampleAncestors(r1, r2, r3);

    table.RowToggle(r2);
    SampleFirstToggle(r1, r2, r3);
    assert table.checkedSelection == {r2};
    assert table.IsSelected(r2) && !table.IsSelected(r3) && !table.IsSelected(r1);
    assert IsRowIndeterminate(ds, table.checkedSelection, r1);

    table.RowToggle(r3);
    SampleSecondToggle(r1, r2, r3);
    assert table.checkedSelection == {r1, r2, r3};
    assert table.IsSelected(r1) && table.IsSelected(r2) && table.IsSelected(r3);
    assert !IsRowIndeterminate(ds, table.checkedSelection, r1);
  }

  /** Collapsing the root of the example hides both children; the root stays shown. */
  method CollapseRoot()
  {
    var r1 := new Row("1", None, 1, false, true);
    var r2 := new Row("2", Some("1"), 2, true, false);
    var r3 := new Row("3", Some("1"), 2, true, false);
    var table := new TreeTable([r1, r2, r3]);
    ghost var ds := table.dataSource;
    SampleAncestors(r1, r2, r3);
    assert IsShow(ds, r2) && IsShow(ds, r3);

    table.Collapse(r1, false);
    assert IsShow(ds, r1);
    assert !IsShow(ds, r2) && !IsShow(ds, r3);
  }
}
