/**
 * The visibility engine of the tree table: the stored leaf/expanded flags
 * and whether a row is currently shown, which depends on the expanded flags
 * of the records on its walk up to a level-1 record.
 */
module Visibility {
  import opened Rows
  import opened NodeAccessor

  /** isLeaf: the advisory leaf flag as stored; false for an absent node. */
  function IsLeaf(node: Row?): (r: bool)
    ensures r <==> node != null && node.leaf
  {
    if node == null then false else node.leaf
  }

  /** isExpand: the expanded flag as stored; false for an absent node. */
  function IsExpand(node: Row?): (r: bool)
    reads node
    ensures r <==> node != null && node.expanded
  {
    if node == null then false else node.expanded
  }

  /** isShow: the row is a root, or its parent resolves, is expanded and is itself shown. */
  function IsShow(ds: seq<Row>, node: Row?): bool
    requires WellFormed(ds)
    reads ds
    decreases if node == null then 0 else AscentRank(ds, node)
  {
    if node == null then false
    else if node.level == 1 then true
    else
      var parent := Parent(ds, node);
      if parent == null then false
      else if !parent.expanded then false
      else
        ParentRankBelow(ds, node, parent);
        IsShow(ds, parent)
  }

  /**
   * The walk up from `x` along its ancestor list `anc` stops after `k` steps
   * at the first level-1 record (at `x` itself when k = 0), and every
   * ancestor stepped onto, anc[0] .. anc[k-1], is expanded.
   */
  ghost predicate ShownThrough(x: Row, anc: seq<Row>, k: int)
    reads anc
  {
    && 0 <= k <= |anc|
    && (if k == 0 then x.level == 1 else x.level != 1 && anc[k - 1].level == 1)
    && (forall j :: 0 <= j < k - 1 ==> anc[j].level != 1)
    && (forall j :: 0 <= j < k ==> anc[j].expanded)
  }

  /**
   * A row is shown exactly when its walk up reaches a level-1 record through
   * expanded ancestors only.
   */
  lemma {:induction false} IsShowWalk(ds: seq<Row>, node: Row)
    requires WellFormed(ds)
    ensures IsShow(ds, node) <==> exists k :: ShownThrough(node, Ancestors(ds, node), k)
    decreases AscentRank(ds, node)
  {
    var anc := Ancestors(ds, node);
    if node.level == 1 {
      assert ShownThrough(node, anc, 0);
      assert exists k :: ShownThrough(node, Ancestors(ds, node), k);
    } else {
      var p := Parent(ds, node);
      if p == null {
        assert anc == [];
        forall k: int ensures !ShownThrough(node, anc, k) {
        }
      } else {
        ParentRankBelow(ds, node, p);
        var up := Ancestors(ds, p);
        assert anc == [p] + up;
        if !p.expanded {
          forall k: int ensures !ShownThrough(node, anc, k) {
            if 0 < k <= |anc| {
              assert anc[0] == p;
            }
          }
        } else {
          IsShowWalk(ds, p);
          assert !ShownThrough(node, anc, 0);
          assert IsShow(ds, node) == IsShow(ds, p);
          if IsShow(ds, p) {
            var k :| ShownThrough(p, up, k);
            ShownThroughStep(node, p, up, k);
            assert ShownThrough(node, Ancestors(ds, node), k + 1);
            assert exists k :: ShownThrough(node, Ancestors(ds, node), k);
          } else {
            assert !exists k :: ShownThrough(p, Ancestors(ds, p), k);
            assert forall k :: !ShownThrough(p, up, k);
            forall k: int ensures !ShownThrough(node, anc, k) {
              ShownThroughStep(node, p, up, k - 1);
              assert !ShownThrough(p, up, k - 1);
            }
          }
        }
      }
    }
  }

  /** One step of the walk: from `x` through its expanded parent `p` on to p's own walk. */
  lemma ShownThroughStep(x: Row, p: Row, up: seq<Row>, k: int)
    requires x.level != 1 && p.expanded
    ensures ShownThrough(x, [p] + up, k + 1) <==> ShownThrough(p, up, k)
  {
    var anc := [p] + up;
    if ShownThrough(p, up, k) {
      assert anc[k].level == 1 by {
        if k > 0 { assert anc[k] == up[k - 1]; }
      }
      forall j | 0 <= j < k ensures anc[j].level != 1 {
        if j > 0 { assert anc[j] == up[j - 1]; }
      }
      forall j | 0 <= j < k + 1 ensures anc[j].expanded {
        if j > 0 { assert anc[j] == up[j - 1]; }
      }
    }
    if ShownThrough(x, anc, k + 1) {
      assert if k == 0 then p.level == 1 else p.level != 1 && up[k - 1].level == 1 by {
        if k > 0 { assert anc[k] == up[k - 1] && anc[0] == p; }
      }
      forall j | 0 <= j < k - 1 ensures up[j].level != 1 {
        assert up[j] == anc[j + 1];
      }
      forall j | 0 <= j < k ensures up[j].expanded {
        assert up[j] == anc[j + 1];
      }
    }
  }

  /**
   * A collapsed ancestor at level 1 or deeper hides every record below it:
   * the walk up from the record passes through it before any level-1 record.
   */
  lemma CollapsedAncestorHides(ds: seq<Row>, x: Row, a: Row)
    requires WellFormed(ds) && x in ds
    requires a in Ancestors(ds, x) && a.level >= 1 && !a.expanded
    ensures !IsShow(ds, x)
  {
    var anc := Ancestors(ds, x);
    IsShowWalk(ds, x);
    AncestorLevels(ds, x);
    var i :| 0 <= i < |anc| && anc[i] == a;
    forall k: int ensures !ShownThrough(x, anc, k) {
      if 0 < k <= |anc| {
        assert anc[k - 1].level == x.level - k;
        if k > i {
          assert anc[i] == a;
        }
      }
    }
  }
}
