/**
 * The tree table wrapper: a table whose flat data source is read as a tree
 * through parentId links, with expand/collapse state kept on the records and
 * a cascading checkbox selection.
 *
 * The queries that compute a value from the current snapshot are the
 * functions of NodeAccessor, Visibility and Selection; the members here are
 * the ones that work step by step (accumulating into a list, walking a
 * child list, changing a record or the selection), each proved to produce
 * exactly what the matching function describes.
 */
module TreeTableWrapper {
  import opened Rows
  import opened NodeAccessor
  import opened Visibility
  import opened Selection

  class TreeTable {
    /** The table's records, in collection order (owned by the base table). */
    var dataSource: seq<Row>
    /** The checked records (the base table's selection model). */
    var checkedSelection: set<Row>

    /** A table over `dataSource` with nothing checked. */
    constructor (dataSource: seq<Row>)
      ensures this.dataSource == dataSource && checkedSelection == {}
    {
      this.dataSource := dataSource;
      checkedSelection := {};
    }

    /** The data source has unique ids and no parentId cycle. */
    ghost predicate Valid()
      reads this
    {
      WellFormed(dataSource)
    }

    /** isSelected: membership in the checked selection; false for an absent node. */
    function IsSelected(node: Row?): (r: bool)
      reads this
      ensures r <==> node != null && node in checkedSelection
    {
      node != null && node in checkedSelection
    }

    /**
     * addAllChildren: appends `node` and then, child by child in collection
     * order, each child's own subtree.
     */
    method AddAllChildren(list: seq<Row>, node: Row) returns (result: seq<Row>)
      requires Valid()
      ensures result == list + Subtree(dataSource, node)
      decreases DescentRank(dataSource, node)
    {
      result := list + [node];
      var children := Children(dataSource, node);
      ghost var head := list + [node];
      var i := 0;
      while i < |children|
        invariant 0 <= i <= |children|
        invariant result == head + Forest(dataSource, node, children[..i])
      {
        ChildRankBelow(dataSource, node, children[i]);
        ForestStep(dataSource, node, children, i);
        ghost var done := Forest(dataSource, node, children[..i]);
        ghost var next := Subtree(dataSource, children[i]);
        result := AddAllChildren(result, children[i]);
        AppendAssoc(head, done, next);
        i := i + 1;
      }
      assert children[..|children|] == children;
      ghost var all := Forest(dataSource, node, children);
      assert Subtree(dataSource, node) == [node] + all;
      AppendAssoc(list, [node], all);
    }

    /**
     * getAllChildren: every record below `node`, each once, without `node`
     * itself; empty for an absent node.
     */
    method GetAllChildren(node: Row?) returns (result: seq<Row>)
      requires Valid()
      ensures result == AllChildren(dataSource, node)
      ensures node == null ==> result == []
      ensures node != null ==> node !in result
      ensures node != null && node in dataSource ==>
        && Distinct(result)
        && (forall x :: x in result ==> x in dataSource && node in Ancestors(dataSource, x))
        && (forall x :: x in dataSource && node in Ancestors(dataSource, x) ==> x in result)
    {
      if node == null {
        return [];
      }
      var list := AddAllChildren([], node);
      assert list == Subtree(dataSource, node);
      result := RemoveAll(list, node);
      if node in dataSource {
        AllChildrenMembers(dataSource, node);
      }
    }

    /** addParents: appends the parent of `node`, then the parent's own ancestors. */
    method AddParents(list: seq<Row>, node: Row?) returns (result: seq<Row>)
      requires Valid()
      ensures result == list + Ancestors(dataSource, node)
      decreases if node == null then 0 else AscentRank(dataSource, node)
    {
      if node == null {
        return list;
      }
      var parent := Parent(dataSource, node);
      if parent == null {
        return list;
      }
      ParentRankBelow(dataSource, node, parent);
      result := AddParents(list + [parent], parent);
    }

    /**
     * getParents: the ancestors of `node`, nearest first: entry k is the
     * (k+1)-th repeated parent, and one more step finds no parent.
     */
    method GetParents(node: Row?) returns (result: seq<Row>)
      requires Valid()
      ensures result == Ancestors(dataSource, node)
      ensures forall k :: 0 <= k < |result| ==> result[k] == ParentIter(dataSource, node, k + 1)
      ensures ParentIter(dataSource, node, |result| + 1) == null
      ensures node != null && node in dataSource ==> node !in result && Distinct(result)
    {
      result := AddParents([], node);
      AncestorsAreRepeatedParents(dataSource, node);
      if node != null && node in dataSource {
        AncestorsAcyclic(dataSource, node);
      }
    }

    /**
     * collapse: stores the expanded flag of `node` and changes nothing else.
     * A record whose ancestors do not include `node` keeps its visibility; a
     * collapsed record at level 1 or below hides everything under it; an
     * expanded record shows its non-root children exactly when it is shown.
     */
    method Collapse(node: Row?, expand: bool)
      modifies node
      ensures node != null ==> node.expanded == expand
      ensures IsExpand(node) == (node != null && expand)
      ensures Valid() ==> forall x :: x in dataSource && (node == null || node !in Ancestors(dataSource, x)) ==>
        (IsShow(dataSource, x) <==> old(IsShow(dataSource, x)))
      ensures Valid() && node != null && !expand && node.level >= 1 ==>
        forall x :: x in dataSource && node in Ancestors(dataSource, x) ==> !IsShow(dataSource, x)
      ensures Valid() && node != null && expand && node in dataSource ==>
        forall c :: c in Children(dataSource, node) ==> (IsShow(dataSource, c) <==> c.level == 1 || IsShow(dataSource, node))
    {
      if node == null {
        return;
      }
      if Valid() {
        forall x | x in dataSource
          ensures IsShow(dataSource, x) <==> exists k :: ShownThrough(x, Ancestors(dataSource, x), k)
        {
          IsShowWalk(dataSource, x);
        }
      }
      node.expanded := expand;
      if Valid() {
        forall x | x in dataSource && node !in Ancestors(dataSource, x)
          ensures IsShow(dataSource, x) <==> old(IsShow(dataSource, x))
        {
          var anc := Ancestors(dataSource, x);
          IsShowWalk(dataSource, x);
          forall k: int ensures ShownThrough(x, anc, k) == old(ShownThrough(x, anc, k)) {
          }
        }
        if !expand && node.level >= 1 {
          forall x | x in dataSource && node in Ancestors(dataSource, x) ensures !IsShow(dataSource, x) {
            CollapsedAncestorHides(dataSource, x, node);
          }
        }
        if expand && node in dataSource {
          forall c | c in Children(dataSource, node)
            ensures IsShow(dataSource, c) <==> c.level == 1 || IsShow(dataSource, node)
          {
            ChildrenParentInverse(dataSource, node, c);
          }
        }
      }
    }

    /**
     * toggleAllChildren: selects every record below `node` when `node` is
     * selected and deselects them all otherwise.
     */
    method ToggleAllChildren(node: Row)
      requires Valid()
      modifies this`checkedSelection
      ensures Valid()
      ensures checkedSelection == DownCascade(dataSource, old(checkedSelection), node)
    {
      var isChecked := IsSelected(node);
      var nodes := GetAllChildren(node);
      if isChecked {
        SelectEach(nodes);
        return;
      }
      DeselectEach(nodes);
    }

    /** nodes.forEach(select): adds every record of `nodes` to the selection. */
    method SelectEach(nodes: seq<Row>)
      modifies this`checkedSelection
      ensures checkedSelection == old(checkedSelection) + Elements(nodes)
    {
      var i := 0;
      while i < |nodes|
        invariant 0 <= i <= |nodes|
        invariant checkedSelection == old(checkedSelection) + Elements(nodes[..i])
      {
        checkedSelection := checkedSelection + {nodes[i]};
        ElementsStep(nodes, i);
        i := i + 1;
      }
      ElementsAll(nodes);
    }

    /** nodes.forEach(deselect): removes every record of `nodes` from the selection. */
    method DeselectEach(nodes: seq<Row>)
      modifies this`checkedSelection
      ensures checkedSelection == old(checkedSelection) - Elements(nodes)
    {
      var i := 0;
      while i < |nodes|
        invariant 0 <= i <= |nodes|
        invariant checkedSelection == old(checkedSelection) - Elements(nodes[..i])
      {
        checkedSelection := checkedSelection - {nodes[i]};
        ElementsStep(nodes, i);
        i := i + 1;
      }
      ElementsAll(nodes);
    }

    /**
     * toggleParents: selects the parent of `node` iff all its direct children
     * are selected, then continues from the parent.
     */
    method ToggleParents(node: Row)
      requires Valid()
      modifies this`checkedSelection
      ensures Valid()
      ensures checkedSelection == UpCascade(dataSource, old(checkedSelection), node)
      decreases AscentRank(dataSource, node)
    {
      var parent := Parent(dataSource, node);
      if parent == null {
        return;
      }
      ghost var before := checkedSelection;
      var isAllChecked := AllChildrenChecked(dataSource, checkedSelection, parent);
      if isAllChecked {
        checkedSelection := checkedSelection + {parent};
      } else {
        checkedSelection := checkedSelection - {parent};
      }
      UpCascadeStep(dataSource, before, node);
      ParentRankBelow(dataSource, node, parent);
      ToggleParents(parent);
    }

    /**
     * rowToggle: flips `node`, gives every record below it node's new state,
     * and then selects each ancestor iff it has a direct child and all its
     * direct children are selected; no other record changes.
     */
    method RowToggle(node: Row)
      requires Valid()
      modifies this`checkedSelection
      ensures Valid()
      ensures checkedSelection == RowToggleResult(dataSource, old(checkedSelection), node)
      ensures IsSelected(node) <==> node !in old(checkedSelection)
      ensures node in dataSource ==>
        forall x :: x in AllChildren(dataSource, node) ==> (IsSelected(x) <==> IsSelected(node))
      ensures forall a :: a in Ancestors(dataSource, node) ==>
        (IsSelected(a) <==> AllChildrenChecked(dataSource, checkedSelection, a))
      ensures forall x :: x != node && x !in AllChildren(dataSource, node) && x !in Ancestors(dataSource, node) ==>
        (x in checkedSelection <==> x in old(checkedSelection))
    {
      checkedSelection := Toggle(checkedSelection, node);
      ToggleAllChildren(node);
      ToggleParents(node);
      RowToggleFlips(dataSource, old(checkedSelection), node);
      if node in dataSource {
        RowToggleDescendants(dataSource, old(checkedSelection), node);
      }
      RowToggleAncestors(dataSource, old(checkedSelection), node);
      RowToggleOthers(dataSource, old(checkedSelection), node);
    }
  }
}
