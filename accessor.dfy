/**
 * The node accessor of the tree table: direct children, parent, ancestor
 * chain and descendants of a record, derived from `id`/`parentId` equality
 * over the current snapshot `ds` of the data source. An absent node is `null`.
 */
module NodeAccessor {
  import opened Rows

  // ---------------------------------------------------------------- children

  /** The records of `ds` whose parentId names `id`, in collection order. */
  function ChildrenWithParent(ds: seq<Row>, id: Id): (r: seq<Row>)
    ensures forall x :: x in r ==> x in ds && x.parentId == Some(id)
    ensures forall x :: x in ds && x.parentId == Some(id) ==> x in r
    ensures |r| <= |ds|
    ensures Distinct(ds) ==> Distinct(r)
  {
    if |ds| == 0 then []
    else
      var rest := ChildrenWithParent(ds[1..], id);
      assert Distinct(ds) ==> ds[0] !in ds[1..];
      (if ds[0].parentId == Some(id) then [ds[0]] else []) + rest
  }

  /** getChildren: the direct children of `node`; none for an absent node. */
  function Children(ds: seq<Row>, node: Row?): (r: seq<Row>)
    ensures node == null ==> r == []
    ensures forall x :: x in r ==> x in ds && node != null && x.parentId == Some(node.id)
    ensures node != null ==> forall x :: x in ds && x.parentId == Some(node.id) ==> x in r
    ensures |r| <= |ds|
    ensures Distinct(ds) ==> Distinct(r)
  {
    if node == null then [] else ChildrenWithParent(ds, node.id)
  }

  /**
   * `pos` gives, for each entry of `r`, a position of `ds` holding that
   * entry, and the positions strictly increase: `r` is a subsequence of `ds`
   * in the same order.
   */
  ghost predicate OrderedWithin(ds: seq<Row>, r: seq<Row>, pos: seq<nat>) {
    && |pos| == |r|
    && (forall k :: 0 <= k < |pos| ==> pos[k] < |ds| && ds[pos[k]] == r[k])
    && (forall k, l :: 0 <= k < l < |pos| ==> pos[k] < pos[l])
  }

  /** The children keep the order of the data source. */
  lemma {:induction false} ChildrenInCollectionOrder(ds: seq<Row>, id: Id) returns (pos: seq<nat>)
    ensures OrderedWithin(ds, ChildrenWithParent(ds, id), pos)
  {
    if |ds| == 0 {
      pos := [];
    } else {
      var rest := ChildrenInCollectionOrder(ds[1..], id);
      var tail := ChildrenWithParent(ds[1..], id);
      assert ds == [ds[0]] + ds[1..];
      if ds[0].parentId == Some(id) {
        assert ChildrenWithParent(ds, id) == [ds[0]] + tail;
        pos := [0] + Shifted(rest);
        OrderedWithinCons(ds[0], ds[1..], tail, rest);
      } else {
        assert ChildrenWithParent(ds, id) == tail;
        pos := Shifted(rest);
        OrderedWithinSkip(ds[0], ds[1..], tail, rest);
      }
    }
  }

  /** Putting a record in front of `ds` moves every position one place right. */
  lemma OrderedWithinSkip(d: Row, ds: seq<Row>, r: seq<Row>, pos: seq<nat>)
    requires OrderedWithin(ds, r, pos)
    ensures OrderedWithin([d] + ds, r, Shifted(pos))
  {
    var shifted := Shifted(pos);
    forall k | 0 <= k < |shifted| ensures shifted[k] < |ds| + 1 && ([d] + ds)[shifted[k]] == r[k] {
      assert ([d] + ds)[pos[k] + 1] == ds[pos[k]];
    }
  }

  /** Putting the same record in front of both sequences: it sits at position 0. */
  lemma OrderedWithinCons(d: Row, ds: seq<Row>, r: seq<Row>, pos: seq<nat>)
    requires OrderedWithin(ds, r, pos)
    ensures OrderedWithin([d] + ds, [d] + r, [0] + Shifted(pos))
  {
    OrderedWithinSkip(d, ds, r, pos);
    var shifted := Shifted(pos);
    var all := [0] + shifted;
    forall k | 0 < k < |all| ensures all[k] == shifted[k - 1] && ([d] + r)[k] == r[k - 1] {
    }
    forall k, l | 0 <= k < l < |all| ensures all[k] < all[l] {
      if k > 0 {
        assert all[k] == shifted[k - 1];
      }
    }
  }

  /** Every position moved one place right. */
  function Shifted(s: seq<nat>): (r: seq<nat>)
    ensures |r| == |s|
    ensures forall k :: 0 <= k < |s| ==> r[k] == s[k] + 1
  {
    if |s| == 0 then [] else [s[0] + 1] + Shifted(s[1..])
  }

  // ------------------------------------------------------------------ parent

  /** Array.find by id: the first record of `ds` carrying `id`, or null if none does. */
  function FindById(ds: seq<Row>, id: Id): (r: Row?)
    ensures r != null ==> r in ds && r.id == id
    ensures r == null <==> forall x :: x in ds ==> x.id != id
    ensures r != null ==>
      exists i :: 0 <= i < |ds| && ds[i] == r && forall j :: 0 <= j < i ==> ds[j].id != id
  {
    if |ds| == 0 then null
    else if ds[0].id == id then ds[0]
    else FindById(ds[1..], id)
  }

  /** getParent: the record whose id is `node`'s parentId, or null. */
  function Parent(ds: seq<Row>, node: Row?): (p: Row?)
    ensures p != null ==> node != null && p in ds && node.parentId == Some(p.id)
    ensures p == null <==> node == null || forall x :: x in ds ==> node.parentId != Some(x.id)
    ensures node != null && node.parentId.Some? ==> p == FindById(ds, node.parentId.value)
  {
    if node == null then null
    else match node.parentId
      case None => null
      case Some(pid) => FindById(ds, pid)
  }

  /** Children and parent are mutual inverses on a record of the data source. */
  lemma ChildrenParentInverse(ds: seq<Row>, n: Row, c: Row)
    requires UniqueIds(ds) && n in ds
    ensures c in Children(ds, n) <==> c in ds && Parent(ds, c) == n
  {
    if c in Children(ds, n) {
      var p := Parent(ds, c);
      assert p != null;
      SameIdSameRow(ds, p, n);
    }
  }

  // --------------------------------------------------------------- ancestors

  /** getParents: parent, grandparent, ... nearest first, up to the first unresolved parent. */
  function Ancestors(ds: seq<Row>, node: Row?): (r: seq<Row>)
    requires WellFormed(ds)
    ensures node == null ==> r == []
    ensures forall x :: x in r ==> x in ds
    decreases if node == null then 0 else AscentRank(ds, node)
  {
    if node == null then []
    else
      var p := Parent(ds, node);
      if p == null then []
      else
        ParentRankBelow(ds, node, p);
        [p] + Ancestors(ds, p)
  }

  /** `node` after `k` applications of getParent. */
  ghost function ParentIter(ds: seq<Row>, node: Row?, k: nat): Row?
  {
    if k == 0 then node else ParentIter(ds, Parent(ds, node), k - 1)
  }

  /**
   * The ancestor list is the chain of repeated getParent calls: its k-th entry
   * is the (k+1)-th parent, and the parent after its last entry is unresolved.
   */
  lemma {:induction false} AncestorsAreRepeatedParents(ds: seq<Row>, node: Row?)
    requires WellFormed(ds)
    ensures forall k :: 0 <= k < |Ancestors(ds, node)| ==> Ancestors(ds, node)[k] == ParentIter(ds, node, k + 1)
    ensures ParentIter(ds, node, |Ancestors(ds, node)| + 1) == null
    decreases if node == null then 0 else AscentRank(ds, node)
  {
    if node != null {
      var p := Parent(ds, node);
      if p != null {
        ParentRankBelow(ds, node, p);
        AncestorsAreRepeatedParents(ds, p);
        var a := Ancestors(ds, node);
        assert a == [p] + Ancestors(ds, p);
        forall k | 0 <= k < |a| ensures a[k] == ParentIter(ds, node, k + 1) {
          if k > 0 {
            assert a[k] == Ancestors(ds, p)[k - 1];
          }
        }
      }
    }
  }

  /** Along the ancestor list of a record of `ds`, the level drops by one per step. */
  lemma {:induction false} AncestorLevels(ds: seq<Row>, node: Row)
    requires WellFormed(ds) && node in ds
    ensures forall k :: 0 <= k < |Ancestors(ds, node)| ==> Ancestors(ds, node)[k].level == node.level - k - 1
    decreases AscentRank(ds, node)
  {
    var p := Parent(ds, node);
    if p != null {
      ParentRankBelow(ds, node, p);
      AncestorLevels(ds, p);
      var a := Ancestors(ds, node);
      assert a == [p] + Ancestors(ds, p);
      forall k | 0 <= k < |a| ensures a[k].level == node.level - k - 1 {
        if k > 0 {
          assert a[k] == Ancestors(ds, p)[k - 1];
        }
      }
    }
  }

  /** No record of the data source is its own ancestor, and no ancestor repeats. */
  lemma AncestorsAcyclic(ds: seq<Row>, node: Row)
    requires WellFormed(ds) && node in ds
    ensures node !in Ancestors(ds, node)
    ensures Distinct(Ancestors(ds, node))
  {
    AncestorLevels(ds, node);
  }

  /** Two records on the chain `x, parent(x), ...` with the same level are the same record. */
  lemma SameLevelOnChain(ds: seq<Row>, x: Row, a: Row, b: Row)
    requires WellFormed(ds) && x in ds
    requires a == x || a in Ancestors(ds, x)
    requires b == x || b in Ancestors(ds, x)
    requires a.level == b.level
    ensures a == b
  {
    AncestorLevels(ds, x);
  }

  /** The ancestor list is closed under getParent. */
  lemma {:induction false} ParentOfAncestor(ds: seq<Row>, x: Row, a: Row)
    requires WellFormed(ds) && a in Ancestors(ds, x) && Parent(ds, a) != null
    ensures Parent(ds, a) in Ancestors(ds, x)
    decreases AscentRank(ds, x)
  {
    var p := Parent(ds, x);
    ParentRankBelow(ds, x, p);
    assert Ancestors(ds, x) == [p] + Ancestors(ds, p);
    if a == p {
      assert Ancestors(ds, p)[0] == Parent(ds, p);
    } else {
      ParentOfAncestor(ds, p, a);
    }
  }

  /** An ancestor `n` of `x` is the parent of `x` or of another ancestor of `x`. */
  lemma {:induction false} AncestorIsParentOnChain(ds: seq<Row>, x: Row, n: Row)
    requires WellFormed(ds) && n in Ancestors(ds, x)
    ensures Parent(ds, x) == n || exists c :: c in Ancestors(ds, x) && Parent(ds, c) == n
    decreases AscentRank(ds, x)
  {
    var p := Parent(ds, x);
    ParentRankBelow(ds, x, p);
    assert Ancestors(ds, x) == [p] + Ancestors(ds, p);
    if n != p {
      AncestorIsParentOnChain(ds, p, n);
      if Parent(ds, p) == n {
        assert p in Ancestors(ds, x);
      } else {
        var c :| c in Ancestors(ds, p) && Parent(ds, c) == n;
        assert c in Ancestors(ds, x);
      }
    }
  }

  // ------------------------------------------------------------- descendants

  /**
   * What addAllChildren pushes for `node`: the node itself, then the subtree
   * of each direct child in collection order (pre-order).
   */
  function Subtree(ds: seq<Row>, node: Row): seq<Row>
    requires WellFormed(ds)
    decreases DescentRank(ds, node), |ds| + 1
  {
    [node] + Forest(ds, node, Children(ds, node))
  }

  /** The subtrees of the children `cs` of `node`, concatenated in order. */
  function Forest(ds: seq<Row>, node: Row, cs: seq<Row>): seq<Row>
    requires WellFormed(ds)
    requires forall c :: c in cs ==> c in ds && c.parentId == Some(node.id)
    decreases DescentRank(ds, node), |cs|
  {
    if |cs| == 0 then []
    else
      var last := cs[|cs| - 1];
      ChildRankBelow(ds, node, last);
      Forest(ds, node, cs[..|cs| - 1]) + Subtree(ds, last)
  }

  lemma AppendAssoc(a: seq<Row>, b: seq<Row>, c: seq<Row>)
    ensures (a + b) + c == a + (b + c)
  {
  }

  /** Extending the child list by one child appends that child's subtree. */
  lemma ForestStep(ds: seq<Row>, node: Row, cs: seq<Row>, i: int)
    requires WellFormed(ds) && 0 <= i < |cs|
    requires forall c :: c in cs ==> c in ds && c.parentId == Some(node.id)
    ensures Forest(ds, node, cs[..i + 1]) == Forest(ds, node, cs[..i]) + Subtree(ds, cs[i])
  {
    assert cs[..i + 1][..i] == cs[..i];
  }

  /** The `remove` helper: `s` without any occurrence of `x`. */
  function RemoveAll(s: seq<Row>, x: Row): (r: seq<Row>)
    ensures forall y :: y in r ==> y in s && y != x
    ensures forall y :: y in s && y != x ==> y in r
    ensures Distinct(s) ==> Distinct(r)
  {
    if |s| == 0 then []
    else
      var rest := RemoveAll(s[1..], x);
      assert Distinct(s) ==> s[0] !in s[1..];
      (if s[0] != x then [s[0]] else []) + rest
  }

  /** getAllChildren: every descendant of `node`, never `node` itself. */
  function AllChildren(ds: seq<Row>, node: Row?): (r: seq<Row>)
    requires WellFormed(ds)
    ensures node == null ==> r == []
    ensures node != null ==> node !in r
  {
    if node == null then [] else RemoveAll(Subtree(ds, node), node)
  }

  /** A record is in the forest of `cs` iff it is in the subtree of one of them. */
  lemma {:induction false} ForestMembers(ds: seq<Row>, node: Row, cs: seq<Row>, x: Row?)
    requires WellFormed(ds)
    requires forall c :: c in cs ==> c in ds && c.parentId == Some(node.id)
    ensures x in Forest(ds, node, cs) <==> exists c :: c in cs && x in Subtree(ds, c)
    decreases |cs|
  {
    if |cs| == 0 {
      assert Forest(ds, node, cs) == [];
    } else {
      var front := cs[..|cs| - 1];
      var last := cs[|cs| - 1];
      assert cs == front + [last];
      ForestMembers(ds, node, front, x);
      var pre := Forest(ds, node, front);
      var sub := Subtree(ds, last);
      assert Forest(ds, node, cs) == pre + sub;
      if x in pre {
        var c :| c in front && x in Subtree(ds, c);
        assert c in cs;
      } else if x in sub {
        assert last in cs;
      } else {
        forall c | c in cs ensures x !in Subtree(ds, c) {
          assert c in front || c == last;
        }
      }
    }
  }

  /** For x in ds: reaching `x` through some child of `n` is having `n` among x's ancestors. */
  lemma DescendsThroughChild(ds: seq<Row>, n: Row, x: Row?)
    requires WellFormed(ds) && n in ds
    ensures (exists c :: c in Children(ds, n) && (x == c || (x in ds && c in Ancestors(ds, x))))
        <==> (x in ds && n in Ancestors(ds, x))
  {
    if c :| c in Children(ds, n) && (x == c || (x in ds && c in Ancestors(ds, x))) {
      ChildrenParentInverse(ds, n, c);
      if x == c {
        assert Ancestors(ds, x)[0] == n;
      } else {
        ParentOfAncestor(ds, x, c);
      }
    }
    if x in ds && n in Ancestors(ds, x) {
      AncestorIsParentOnChain(ds, x, n);
      if Parent(ds, x) == n {
        ChildrenParentInverse(ds, n, x);
      } else {
        var c :| c in Ancestors(ds, x) && Parent(ds, c) == n;
        ChildrenParentInverse(ds, n, c);
      }
    }
  }

  /** No record lies on or below two different children of `n`. */
  lemma SiblingChainsDisjoint(ds: seq<Row>, n: Row, a: Row, b: Row, y: Row)
    requires WellFormed(ds) && n in ds && a != b
    requires a in ds && a.parentId == Some(n.id) && b in ds && b.parentId == Some(n.id)
    requires y == a || (y in ds && a in Ancestors(ds, y))
    ensures !(y == b || (y in ds && b in Ancestors(ds, y)))
  {
    if y == b || (y in ds && b in Ancestors(ds, y)) {
      assert y in ds;
      SameLevelOnChain(ds, y, a, b);
    }
  }

  /** The subtree of `n` holds `n` and exactly the records having `n` as an ancestor. */
  lemma {:induction false} SubtreeMembers(ds: seq<Row>, n: Row, x: Row?)
    requires WellFormed(ds) && n in ds
    ensures x in Subtree(ds, n) <==> x == n || (x in ds && n in Ancestors(ds, x))
    decreases DescentRank(ds, n)
  {
    var cs := Children(ds, n);
    ForestMembers(ds, n, cs, x);
    forall c | c in cs
      ensures x in Subtree(ds, c) <==> x == c || (x in ds && c in Ancestors(ds, x))
    {
      ChildRankBelow(ds, n, c);
      SubtreeMembers(ds, c, x);
    }
    DescendsThroughChild(ds, n, x);
    if x in ds && n in Ancestors(ds, x) {
      var c :| c in cs && (x == c || (x in ds && c in Ancestors(ds, x)));
      assert x in Subtree(ds, c);
    }
  }

  lemma {:induction false} SubtreeDistinct(ds: seq<Row>, n: Row)
    requires WellFormed(ds) && n in ds
    ensures Distinct(Subtree(ds, n))
    decreases DescentRank(ds, n), |ds| + 1
  {
    var cs := Children(ds, n);
    UniqueIdsDistinct(ds);
    ForestDistinct(ds, n, cs);
    forall y | y in Forest(ds, n, cs) ensures y != n {
      ForestMembers(ds, n, cs, y);
      var c :| c in cs && y in Subtree(ds, c);
      SubtreeMembers(ds, c, y);
      DescendsThroughChild(ds, n, y);
      AncestorsAcyclic(ds, n);
    }
    DistinctConcat([n], Forest(ds, n, cs));
  }

  lemma {:induction false} ForestDistinct(ds: seq<Row>, n: Row, cs: seq<Row>)
    requires WellFormed(ds) && n in ds && Distinct(cs)
    requires forall c :: c in cs ==> c in ds && c.parentId == Some(n.id)
    ensures Distinct(Forest(ds, n, cs))
    decreases DescentRank(ds, n), |cs|
  {
    if |cs| > 0 {
      var front := cs[..|cs| - 1];
      var last := cs[|cs| - 1];
      ChildRankBelow(ds, n, last);
      ForestDistinct(ds, n, front);
      SubtreeDistinct(ds, last);
      forall j | 0 <= j < |front| ensures front[j] != last {
        assert front[j] == cs[j];
      }
      forall y | y in Forest(ds, n, front) ensures y !in Subtree(ds, last) {
        ForestMembers(ds, n, front, y);
        var c :| c in front && y in Subtree(ds, c);
        SubtreeMembers(ds, c, y);
        SubtreeMembers(ds, last, y);
        SiblingChainsDisjoint(ds, n, c, last, y);
      }
      DistinctConcat(Forest(ds, n, front), Subtree(ds, last));
    }
  }

  /**
   * getAllChildren of a record of the data source: exactly the records that
   * have it as an ancestor (that is, those reached from it by repeated
   * getChildren), each exactly once.
   */
  lemma AllChildrenMembers(ds: seq<Row>, n: Row)
    requires WellFormed(ds) && n in ds
    ensures forall x :: x in AllChildren(ds, n) <==> x in ds && n in Ancestors(ds, x)
    ensures Distinct(AllChildren(ds, n))
  {
    forall x ensures x in AllChildren(ds, n) <==> x in ds && n in Ancestors(ds, x) {
      SubtreeMembers(ds, n, x);
      AncestorsAcyclic(ds, n);
    }
    SubtreeDistinct(ds, n);
  }

  /**
   * getAllChildren unfolds through the direct children: a descendant of `n`
   * is a child `c` of `n` or a descendant of such a `c`.
   */
  lemma AllChildrenUnfold(ds: seq<Row>, n: Row, x: Row)
    requires WellFormed(ds) && n in ds
    ensures x in AllChildren(ds, n) <==> exists c :: c in Children(ds, n) && (x == c || x in AllChildren(ds, c))
  {
    AllChildrenMembers(ds, n);
    DescendsThroughChild(ds, n, x);
    forall c | c in Children(ds, n) ensures x in AllChildren(ds, c) <==> x in ds && c in Ancestors(ds, x) {
      AllChildrenMembers(ds, c);
    }
  }

  /** A descendant of a record lies strictly below it. */
  lemma DescendantLevel(ds: seq<Row>, n: Row, x: Row)
    requires WellFormed(ds) && n in ds && x in AllChildren(ds, n)
    ensures x in ds && x.level > n.level
  {
    AllChildrenMembers(ds, n);
    AncestorLevels(ds, x);
  }
}
