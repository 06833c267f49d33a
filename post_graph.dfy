// The parent relation of the node store. A node's parent is checked to exist
// when the node is inserted and never changes afterwards
// (src/routes/posts.ts:20-24, 36), so in insertion order every parent comes
// before its children: the relation is acyclic, and following parent links
// always reaches a root.

module PostGraph {
  import opened PostTypes

  /** Ids are unique and every parent reference names an earlier node. */
  predicate Linked(nodes: seq<Node>)
  {
    && DistinctIds(nodes)
    && forall i :: 0 <= i < |nodes| && nodes[i].parentId.Some? ==> nodes[i].parentId.value in Ids(nodes[..i])
  }

  /** The parent reference of the node with id `x`. */
  function ParentOf(nodes: seq<Node>, x: Id): Option<Id>
    requires x in Ids(nodes)
  {
    nodes[Pos(nodes, x)].parentId
  }

  /** A child is stored after its parent. */
  lemma ChildAfterParent(nodes: seq<Node>, c: Node, x: Id)
    requires Linked(nodes) && c in nodes && c.parentId == Some(x)
    ensures c.id in Ids(nodes) && x in Ids(nodes)
    ensures Pos(nodes, x) < Pos(nodes, c.id)
  {
    var i :| 0 <= i < |nodes| && nodes[i] == c;
    PosUnique(nodes, i);
    assert x in Ids(nodes[..i]);
    var p :| p in nodes[..i] && p.id == x;
    var j :| 0 <= j < i && nodes[..i][j] == p;
    assert nodes[j] == p;
    PosUnique(nodes, j);
  }

  /** The parent of a stored node is stored, and earlier. */
  lemma ParentPrecedes(nodes: seq<Node>, x: Id)
    requires Linked(nodes) && x in Ids(nodes) && ParentOf(nodes, x).Some?
    ensures ParentOf(nodes, x).value in Ids(nodes)
    ensures Pos(nodes, ParentOf(nodes, x).value) < Pos(nodes, x)
  {
    var c := nodes[Pos(nodes, x)];
    ChildAfterParent(nodes, c, ParentOf(nodes, x).value);
  }

  /** `a` is `d` itself or an ancestor of `d`. */
  predicate Reaches(nodes: seq<Node>, d: Id, a: Id)
    requires Linked(nodes) && d in Ids(nodes)
    decreases Pos(nodes, d)
  {
    || d == a
    || (ParentOf(nodes, d).Some? && (ParentPrecedes(nodes, d); Reaches(nodes, ParentOf(nodes, d).value, a)))
  }

  /** An ancestor is stored, and no later than its descendant. */
  lemma {:induction false} ReachesEarlier(nodes: seq<Node>, d: Id, a: Id)
    requires Linked(nodes) && d in Ids(nodes) && Reaches(nodes, d, a)
    ensures a in Ids(nodes) && Pos(nodes, a) <= Pos(nodes, d)
    decreases Pos(nodes, d)
  {
    if d != a {
      ParentPrecedes(nodes, d);
      ReachesEarlier(nodes, ParentOf(nodes, d).value, a);
    }
  }

  /** No node is an ancestor of its own parent: the parent relation has no cycle. */
  lemma Acyclic(nodes: seq<Node>, d: Id)
    requires Linked(nodes) && d in Ids(nodes) && ParentOf(nodes, d).Some?
    ensures ParentOf(nodes, d).value in Ids(nodes)
    ensures !Reaches(nodes, ParentOf(nodes, d).value, d)
  {
    ParentPrecedes(nodes, d);
    var p := ParentOf(nodes, d).value;
    if Reaches(nodes, p, d) {
      ReachesEarlier(nodes, p, d);
    }
  }

  /** Following parent links from any stored node ends at a stored root. */
  function RootOf(nodes: seq<Node>, d: Id): (r: Id)
    requires Linked(nodes) && d in Ids(nodes)
    ensures r in Ids(nodes) && ParentOf(nodes, r).None?
    ensures Reaches(nodes, d, r)
    decreases Pos(nodes, d)
  {
    match ParentOf(nodes, d)
    case None => d
    case Some(p) =>
      ParentPrecedes(nodes, d);
      RootOf(nodes, p)
  }

  /** Two children of the same node that are both ancestors-or-self of `d` are
      the same node: each node hangs below exactly one child of each ancestor. */
  lemma {:induction false} OneBranch(nodes: seq<Node>, d: Id, c1: Node, c2: Node, x: Id)
    requires Linked(nodes) && d in Ids(nodes)
    requires c1 in nodes && c2 in nodes && c1.parentId == Some(x) && c2.parentId == Some(x)
    requires c1.id in Ids(nodes) && c2.id in Ids(nodes)
    requires Reaches(nodes, d, c1.id) && Reaches(nodes, d, c2.id)
    ensures c1 == c2
    decreases Pos(nodes, d)
  {
    if d == c1.id && d == c2.id {
      SameIdSameNode(nodes, c1, c2);
    } else if d == c1.id {
      ParentOfChild(nodes, c1);
      ChildAfterParent(nodes, c2, x);
      assert Reaches(nodes, x, c2.id);
      ReachesEarlier(nodes, x, c2.id);
    } else if d == c2.id {
      ParentOfChild(nodes, c2);
      ChildAfterParent(nodes, c1, x);
      assert Reaches(nodes, x, c1.id);
      ReachesEarlier(nodes, x, c1.id);
    } else {
      ParentPrecedes(nodes, d);
      var p := ParentOf(nodes, d).value;
      assert Reaches(nodes, p, c1.id) && Reaches(nodes, p, c2.id);
      OneBranch(nodes, p, c1, c2, x);
    }
  }

  /** The stored node with a node's id is that node. */
  lemma SameIdSameNode(nodes: seq<Node>, a: Node, b: Node)
    requires Linked(nodes) && a in nodes && b in nodes && a.id == b.id
    ensures a == b
  {
    var i :| 0 <= i < |nodes| && nodes[i] == a;
    var j :| 0 <= j < |nodes| && nodes[j] == b;
  }

  lemma ParentOfChild(nodes: seq<Node>, c: Node)
    requires Linked(nodes) && c in nodes
    ensures c.id in Ids(nodes) && ParentOf(nodes, c.id) == c.parentId
  {
    var i :| 0 <= i < |nodes| && nodes[i] == c;
    PosUnique(nodes, i);
  }

  /** Ancestry is transitive. */
  lemma {:induction false} ReachesTrans(nodes: seq<Node>, d: Id, m: Id, a: Id)
    requires Linked(nodes) && d in Ids(nodes) && m in Ids(nodes)
    requires Reaches(nodes, d, m) && Reaches(nodes, m, a)
    ensures Reaches(nodes, d, a)
    decreases Pos(nodes, d)
  {
    if d != m {
      ParentPrecedes(nodes, d);
      ReachesTrans(nodes, ParentOf(nodes, d).value, m, a);
    }
  }

  /** Of the children of `x`, the one a descendant `d` of `x` hangs below. */
  lemma {:induction false} ChildOnPath(nodes: seq<Node>, d: Id, x: Id) returns (c: Node)
    requires Linked(nodes) && d in Ids(nodes) && Reaches(nodes, d, x) && d != x
    ensures c in nodes && c.parentId == Some(x) && c.id in Ids(nodes)
    ensures Reaches(nodes, d, c.id)
    decreases Pos(nodes, d)
  {
    ParentPrecedes(nodes, d);
    var p := ParentOf(nodes, d).value;
    if p == x {
      c := nodes[Pos(nodes, d)];
    } else {
      c := ChildOnPath(nodes, p, x);
    }
  }
}
