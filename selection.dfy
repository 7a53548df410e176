/**
 * The cascading tri-state selection of the tree table, stated on values: the
 * checked-selection set `sel` holds the checked records; the indeterminate
 * state is computed from the direct children and never stored.
 *
 * The functions here state what each step of rowToggle does to the set; the
 * methods of the tree table are proved to perform exactly these steps.
 */
module Selection {
  import opened Rows
  import opened NodeAccessor

  /** The records of `s`, as a set. */
  function Elements(s: seq<Row>): (r: set<Row>)
    ensures forall x :: x in r ==> x in s
    ensures forall x :: x in s ==> x in r
  {
    set x | x in s
  }

  lemma ElementsStep(s: seq<Row>, i: int)
    requires 0 <= i < |s|
    ensures Elements(s[..i + 1]) == Elements(s[..i]) + {s[i]}
  {
    assert s[..i + 1] == s[..i] + [s[i]];
  }

  lemma ElementsAll(s: seq<Row>)
    ensures Elements(s[..|s|]) == Elements(s)
  {
    assert s[..|s|] == s;
  }

  /** The selection's toggle: flips the membership of `n` alone. */
  function Toggle(sel: set<Row>, n: Row): (r: set<Row>)
    ensures n in r <==> n !in sel
    ensures r - {n} == sel - {n}
  {
    if n in sel then sel - {n} else sel + {n}
  }

  /**
   * isChildrenAllChecked: `node` has at least one direct child and every
   * direct child is checked.
   */
  function AllChildrenChecked(ds: seq<Row>, sel: set<Row>, node: Row): (r: bool)
    ensures r <==> (&& (exists c :: c in ds && c.parentId == Some(node.id))
                    && (forall c :: c in ds && c.parentId == Some(node.id) ==> c in sel))
  {
    var children := Children(ds, node);
    assert |children| > 0 ==> children[0] in children;
    |children| != 0 && forall i :: 0 <= i < |children| ==> children[i] in sel
  }

  /**
   * isRowIndeterminate: some but not all direct children of `node` are
   * checked. An absent node and a node without children are never
   * indeterminate.
   */
  function IsRowIndeterminate(ds: seq<Row>, sel: set<Row>, node: Row?): (r: bool)
    ensures r <==> (&& node != null
                    && (exists c :: c in ds && c.parentId == Some(node.id) && c in sel)
                    && (exists c :: c in ds && c.parentId == Some(node.id) && c !in sel))
    ensures r ==> node != null && !AllChildrenChecked(ds, sel, node)
  {
    var children := Children(ds, node);
    if |children| == 0 then false
    else
      var isChecked := exists i :: 0 <= i < |children| && children[i] in sel;
      var isAllChecked := forall i :: 0 <= i < |children| ==> children[i] in sel;
      isChecked && !isAllChecked
  }

  /**
   * toggleAllChildren: every descendant of `node` takes node's current
   * membership; nothing else changes.
   */
  function DownCascade(ds: seq<Row>, sel: set<Row>, node: Row): (r: set<Row>)
    requires WellFormed(ds)
    ensures forall x :: x in AllChildren(ds, node) ==> (x in r <==> node in sel)
    ensures r - Elements(AllChildren(ds, node)) == sel - Elements(AllChildren(ds, node))
  {
    var nodes := Elements(AllChildren(ds, node));
    if node in sel then sel + nodes else sel - nodes
  }

  /**
   * One step of toggleParents: `p` is selected iff all its direct children
   * are; nothing else changes.
   */
  function Recompute(ds: seq<Row>, sel: set<Row>, p: Row): (r: set<Row>)
    ensures p in r <==> AllChildrenChecked(ds, sel, p)
    ensures r - {p} == sel - {p}
  {
    if AllChildrenChecked(ds, sel, p) then sel + {p} else sel - {p}
  }

  /** toggleParents: recompute the parent of `node`, then continue from that parent. */
  function UpCascade(ds: seq<Row>, sel: set<Row>, node: Row): set<Row>
    requires WellFormed(ds)
    decreases AscentRank(ds, node)
  {
    var parent := Parent(ds, node);
    if parent == null then sel
    else
      ParentRankBelow(ds, node, parent);
      UpCascade(ds, Recompute(ds, sel, parent), parent)
  }

  /** One step of the upward cascade: recompute the parent, then continue from it. */
  lemma UpCascadeStep(ds: seq<Row>, sel: set<Row>, node: Row)
    requires WellFormed(ds) && Parent(ds, node) != null
    ensures UpCascade(ds, sel, node) == UpCascade(ds, Recompute(ds, sel, Parent(ds, node)), Parent(ds, node))
  {
  }

  /** rowToggle: toggle `node`, push its new state down, then recompute the ancestors. */
  function RowToggleResult(ds: seq<Row>, sel: set<Row>, node: Row): set<Row>
    requires WellFormed(ds)
  {
    UpCascade(ds, DownCascade(ds, Toggle(sel, node), node), node)
  }

  /** The upward cascade changes only the ancestors of `node`. */
  lemma {:induction false} UpCascadeFrame(ds: seq<Row>, sel: set<Row>, node: Row, x: Row)
    requires WellFormed(ds) && x !in Ancestors(ds, node)
    ensures x in UpCascade(ds, sel, node) <==> x in sel
    decreases AscentRank(ds, node)
  {
    var p := Parent(ds, node);
    if p != null {
      ParentRankBelow(ds, node, p);
      assert Ancestors(ds, node) == [p] + Ancestors(ds, p);
      UpCascadeFrame(ds, Recompute(ds, sel, p), p, x);
    }
  }

  /** Whether `p` counts as all-checked depends only on the memberships of its direct children. */
  lemma AllChildrenCheckedSameChildren(ds: seq<Row>, s: set<Row>, t: set<Row>, p: Row)
    requires forall c :: c in ds && c.parentId == Some(p.id) ==> (c in s <==> c in t)
    ensures AllChildrenChecked(ds, s, p) == AllChildrenChecked(ds, t, p)
  {
  }

  /**
   * After the upward cascade from `node`, every ancestor is selected exactly
   * when it has a direct child and all its direct children are selected.
   */
  lemma {:induction false} UpCascadeAncestors(ds: seq<Row>, sel: set<Row>, node: Row)
    requires WellFormed(ds)
    ensures forall a :: a in Ancestors(ds, node) ==>
      (a in UpCascade(ds, sel, node) <==> AllChildrenChecked(ds, UpCascade(ds, sel, node), a))
    decreases AscentRank(ds, node)
  {
    var p := Parent(ds, node);
    if p != null {
      ParentRankBelow(ds, node, p);
      var anc := Ancestors(ds, p);
      assert Ancestors(ds, node) == [p] + anc;
      var r := Recompute(ds, sel, p);
      var u := UpCascade(ds, r, p);
      assert u == UpCascade(ds, sel, node);
      UpCascadeAncestors(ds, r, p);
      AncestorsAcyclic(ds, p);
      AncestorLevels(ds, p);
      forall c | c in ds && c.parentId == Some(p.id) ensures c in u <==> c in r {
        assert c.level == p.level + 1;
        assert c !in anc;
        UpCascadeFrame(ds, r, p, c);
      }
      forall c | c in ds && c.parentId == Some(p.id) ensures c in r <==> c in sel {
        assert c != p;
        assert c in r - {p} <==> c in sel - {p};
      }
      AllChildrenCheckedSameChildren(ds, u, sel, p);
      UpCascadeFrame(ds, r, p, p);
      assert p in u <==> AllChildrenChecked(ds, u, p);
    }
  }

  /**
   * A descendant of a record is never one of its ancestors: descendants lie
   * below it, ancestors above.
   */
  lemma DescendantsAreNotAncestors(ds: seq<Row>, n: Row, x: Row)
    requires WellFormed(ds) && n in ds && x in AllChildren(ds, n)
    ensures x !in Ancestors(ds, n)
  {
    DescendantLevel(ds, n, x);
    AncestorLevels(ds, n);
  }

  /** After rowToggle(n), n's own membership is flipped. */
  lemma RowToggleFlips(ds: seq<Row>, sel: set<Row>, n: Row)
    requires WellFormed(ds)
    ensures n in RowToggleResult(ds, sel, n) <==> n !in sel
  {
    var toggled := Toggle(sel, n);
    var down := DownCascade(ds, toggled, n);
    var below := Elements(AllChildren(ds, n));
    assert RowToggleResult(ds, sel, n) == UpCascade(ds, down, n);
    if n in ds {
      AncestorsAcyclic(ds, n);
    }
    UpCascadeFrame(ds, down, n, n);
    assert n !in below;
    assert n in toggled - below <==> n in down - below;
  }

  /** After rowToggle(n), every descendant of n has n's new membership. */
  lemma RowToggleDescendants(ds: seq<Row>, sel: set<Row>, n: Row)
    requires WellFormed(ds) && n in ds
    ensures forall x :: x in AllChildren(ds, n) ==>
      (x in RowToggleResult(ds, sel, n) <==> n in RowToggleResult(ds, sel, n))
  {
    var toggled := Toggle(sel, n);
    var down := DownCascade(ds, toggled, n);
    var result := RowToggleResult(ds, sel, n);
    assert result == UpCascade(ds, down, n);
    RowToggleFlips(ds, sel, n);
    assert n in result <==> n in toggled;
    forall x | x in AllChildren(ds, n) ensures x in result <==> n in result {
      DescendantsAreNotAncestors(ds, n, x);
      UpCascadeFrame(ds, down, n, x);
      assert x in result <==> x in down;
      assert x in down <==> n in toggled;
    }
  }

  /**
   * After rowToggle(n), every ancestor is selected iff it has a direct child
   * and all its direct children are selected.
   */
  lemma RowToggleAncestors(ds: seq<Row>, sel: set<Row>, n: Row)
    requires WellFormed(ds)
    ensures forall a :: a in Ancestors(ds, n) ==>
      (a in RowToggleResult(ds, sel, n) <==> AllChildrenChecked(ds, RowToggleResult(ds, sel, n), a))
  {
    UpCascadeAncestors(ds, DownCascade(ds, Toggle(sel, n), n), n);
  }

  /** rowToggle(n) leaves every record that is not n, a descendant or an ancestor as it was. */
  lemma RowToggleOthers(ds: seq<Row>, sel: set<Row>, n: Row)
    requires WellFormed(ds)
    ensures forall x :: x != n && x !in AllChildren(ds, n) && x !in Ancestors(ds, n) ==>
      (x in RowToggleResult(ds, sel, n) <==> x in sel)
  {
    var toggled := Toggle(sel, n);
    var down := DownCascade(ds, toggled, n);
    var below := Elements(AllChildren(ds, n));
    assert RowToggleResult(ds, sel, n) == UpCascade(ds, down, n);
    forall x | x != n && x !in AllChildren(ds, n) && x !in Ancestors(ds, n)
      ensures x in RowToggleResult(ds, sel, n) <==> x in sel
    {
      UpCascadeFrame(ds, down, n, x);
      assert x in down - below <==> x in toggled - below;
      assert x in toggled - {n} <==> x in sel - {n};
    }
  }
}
