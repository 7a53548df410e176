/**
 * The records of a tree table's flat data source, and the well-formedness
 * that the parent/child traversals of the tree engine rely on.
 *
 * A record names its own identifier, the identifier of its parent (absent for
 * a root) and its nesting level (1 for a root). Only `expanded` is ever
 * changed by the engine; the other fields are read-only data.
 */
module Rows {

  type Id = string

  datatype Option<T> = None | Some(value: T)

  /** One record of the data source. Records are compared by identity. */
  class Row {
    const id: Id
    const parentId: Option<Id>
    const level: int
    const leaf: bool
    var expanded: bool

    constructor (id: Id, parentId: Option<Id>, level: int, leaf: bool, expanded: bool)
      ensures this.id == id && this.parentId == parentId && this.level == level
      ensures this.leaf == leaf && this.expanded == expanded
    {
      this.id := id;
      this.parentId := parentId;
      this.level := level;
      this.leaf := leaf;
      this.expanded := expanded;
    }
  }

  /** No two positions of the data source hold records with the same id. */
  ghost predicate UniqueIds(ds: seq<Row>) {
    forall i, j :: 0 <= i < |ds| && 0 <= j < |ds| && i != j ==> ds[i].id != ds[j].id
  }

  /**
   * Acyclicity, stated through levels: a record sits one level below the
   * record its parentId resolves to.
   */
  ghost predicate LevelsFollowParents(ds: seq<Row>) {
    forall p, c :: p in ds && c in ds && c.parentId == Some(p.id) ==> c.level == p.level + 1
  }

  ghost predicate WellFormed(ds: seq<Row>) {
    UniqueIds(ds) && LevelsFollowParents(ds)
  }

  ghost predicate Distinct(s: seq<Row>) {
    forall i, j :: 0 <= i < j < |s| ==> s[i] != s[j]
  }

  lemma SameIdSameRow(ds: seq<Row>, a: Row, b: Row)
    requires UniqueIds(ds) && a in ds && b in ds && a.id == b.id
    ensures a == b
  {
    var i :| 0 <= i < |ds| && ds[i] == a;
    var j :| 0 <= j < |ds| && ds[j] == b;
    assert i == j;
  }

  lemma UniqueIdsDistinct(ds: seq<Row>)
    requires UniqueIds(ds)
    ensures Distinct(ds)
  {
    forall i, j | 0 <= i < j < |ds| ensures ds[i] != ds[j] {
      assert ds[i].id != ds[j].id;
    }
  }

  lemma DistinctConcat(s: seq<Row>, t: seq<Row>)
    requires Distinct(s) && Distinct(t)
    requires forall x :: x in s ==> x !in t
    ensures Distinct(s + t)
  {
    var u := s + t;
    forall i, j | 0 <= i < j < |u| ensures u[i] != u[j] {
      if j < |s| {
        assert u[i] == s[i] && u[j] == s[j];
      } else if i >= |s| {
        assert u[i] == t[i - |s|] && u[j] == t[j - |s|];
      } else {
        assert u[i] in s && u[j] in t;
      }
    }
  }

  ghost function MaxLevel(ds: seq<Row>): (m: int)
    ensures forall r :: r in ds ==> r.level <= m
    ensures |ds| == 0 ==> m == 0
    ensures |ds| > 0 ==> ds[0].level <= m
  {
    if |ds| == 0 then 0
    else
      var rest := MaxLevel(ds[1..]);
      if |ds| == 1 || ds[0].level > rest then ds[0].level else rest
  }

  ghost function MinLevel(ds: seq<Row>): (m: int)
    ensures forall r :: r in ds ==> m <= r.level
    ensures |ds| == 0 ==> m == 0
    ensures |ds| > 0 ==> m <= ds[0].level
  {
    if |ds| == 0 then 0
    else
      var rest := MinLevel(ds[1..]);
      if |ds| == 1 || ds[0].level < rest then ds[0].level else rest
  }

  lemma MinBelowMax(ds: seq<Row>)
    ensures MinLevel(ds) <= MaxLevel(ds)
  {
  }

  /** Termination measure of the downward (descendant) walks. */
  ghost function DescentRank(ds: seq<Row>, n: Row): nat
  {
    MinBelowMax(ds);
    if n in ds then MaxLevel(ds) - n.level else MaxLevel(ds) - MinLevel(ds) + 1
  }

  /** Termination measure of the upward (ancestor) walks. */
  ghost function AscentRank(ds: seq<Row>, n: Row): nat
  {
    MinBelowMax(ds);
    if n in ds then n.level - MinLevel(ds) else MaxLevel(ds) - MinLevel(ds) + 1
  }

  lemma ChildRankBelow(ds: seq<Row>, n: Row, c: Row)
    requires WellFormed(ds) && c in ds && c.parentId == Some(n.id)
    ensures DescentRank(ds, c) < DescentRank(ds, n)
  {
  }

  lemma ParentRankBelow(ds: seq<Row>, n: Row, p: Row)
    requires WellFormed(ds) && p in ds && n.parentId == Some(p.id)
    ensures AscentRank(ds, p) < AscentRank(ds, n)
  {
  }
}
