// The client's tree builder (web/src/App.tsx:22-40; the same code is in
// src/client/App.tsx:23-41). A first pass copies every node into a record
// keyed by id; a second pass, over the record's values, pushes each node onto
// its parent's `children` list when it names a parent that is in the record,
// and onto `roots` otherwise, so nodes whose parent is missing are shown as
// top-level posts.
//
// The result is a graph of objects, one per id. It is represented here by the
// root list and, for every node that received a child, the list held in its
// `children` field; a node that received no child has no `children` field
// and no entry in that map.

module ThreadTree {
  import opened PostTypes
  import opened Collections
  import opened NodeIndex
  import opened PostGraph

  /** `if (n.parentId)`: a parent id that is neither null nor empty. */
  predicate HasParentRef(n: Node)
  {
    n.parentId.Some? && n.parentId.value != ""
  }

  /** `n` goes under a parent: it names one, and the record holds that id as
      its own key (a name inherited from `Object.prototype` is not looked up). */
  predicate Attached(byId: seq<Node>, n: Node)
  {
    HasParentRef(n) && n.parentId.value in Ids(byId)
  }

  function Unattached(byId: seq<Node>): Node -> bool
  {
    (n: Node) => !Attached(byId, n)
  }

  function AttachedTo(byId: seq<Node>, p: Id): Node -> bool
  {
    (n: Node) => Attached(byId, n) && n.parentId.value == p
  }

  /** The nodes of `s` that go to the root list, in order. */
  function RootsAmong(byId: seq<Node>, s: seq<Node>): seq<Node>
  {
    Filter(s, Unattached(byId))
  }

  /** The nodes of `s` that go under `p`, in order. */
  function ChildrenAmong(byId: seq<Node>, s: seq<Node>, p: Id): seq<Node>
  {
    Filter(s, AttachedTo(byId, p))
  }

  /** Roots, and the `children` list of every node that has one. */
  datatype Forest = Forest(roots: seq<Node>, children: map<Id, seq<Node>>)

  /** The forest the builder is meant to produce from `posts`, stated
      declaratively: one entry per id (the record), split by `Attached`. */
  function Assemble(posts: seq<Node>): Forest
  {
    var byId := Index(posts);
    Forest(
      RootsAmong(byId, byId),
      map p | p in Ids(byId) && ChildrenAmong(byId, byId, p) != [] :: ChildrenAmong(byId, byId, p))
  }

  /** The builder itself, as the two passes of the source. */
  method BuildTree(posts: seq<Node>) returns (roots: seq<Node>, children: map<Id, seq<Node>>)
    ensures Forest(roots, children) == Assemble(posts)
  {
    var byId := CopyById(posts);
    roots, children := Link(byId);
    assert byId[..|byId|] == byId;
  }

  /** First pass: `posts.forEach(p => (byId[p.id] = { ...p }))`. */
  method CopyById(posts: seq<Node>) returns (byId: seq<Node>)
    ensures byId == Index(posts)
  {
    byId := SetEach([], posts);
    IndexFromIndex([], posts);
    assert [] + posts == posts;
  }

  /** Second pass: `Object.values(byId).forEach(n => ...)`. */
  method Link(byId: seq<Node>) returns (roots: seq<Node>, children: map<Id, seq<Node>>)
    ensures PlacedUpTo(byId, |byId|, roots, children)
  {
    roots := [];
    children := map[];
    var k := 0;
    while k < |byId|
      invariant k <= |byId|
      invariant PlacedUpTo(byId, k, roots, children)
    {
      var n := byId[k];
      if n.parentId.Some? && n.parentId.value != "" {
        var parent := Find(byId, n.parentId.value);
        if parent.Some? {
          PlaceAsChild(byId, k, roots, children);
          var p := n.parentId.value;
          var siblings := if p in children then children[p] else [];
          children := children[p := siblings + [n]];
        } else {
          PlaceAsRoot(byId, k, roots, children);
          roots := roots + [n];  // the parent is not in the record
        }
      } else {
        PlaceAsRoot(byId, k, roots, children);
        roots := roots + [n];
      }
      k := k + 1;
    }
  }

  /** The second pass has placed the first `k` values of the record. */
  ghost predicate PlacedUpTo(byId: seq<Node>, k: nat, roots: seq<Node>, children: map<Id, seq<Node>>)
    requires k <= |byId|
  {
    && roots == RootsAmong(byId, byId[..k])
    && (forall p :: p in children <==> p in Ids(byId) && ChildrenAmong(byId, byId[..k], p) != [])
    && (forall p :: p in children ==> children[p] == ChildrenAmong(byId, byId[..k], p))
  }

  lemma PlaceAsRoot(byId: seq<Node>, k: nat, roots: seq<Node>, children: map<Id, seq<Node>>)
    requires k < |byId| && PlacedUpTo(byId, k, roots, children) && !Attached(byId, byId[k])
    ensures PlacedUpTo(byId, k + 1, roots + [byId[k]], children)
  {
    RootsStep(byId, k);
    forall q ensures ChildrenAmong(byId, byId[..k + 1], q) == ChildrenAmong(byId, byId[..k], q) {
      ChildrenStep(byId, k, q);
    }
  }

  lemma PlaceAsChild(byId: seq<Node>, k: nat, roots: seq<Node>, children: map<Id, seq<Node>>)
    requires k < |byId| && PlacedUpTo(byId, k, roots, children) && Attached(byId, byId[k])
    ensures var p := byId[k].parentId.value;
            PlacedUpTo(byId, k + 1, roots, children[p := (if p in children then children[p] else []) + [byId[k]]])
  {
    var p := byId[k].parentId.value;
    var updated := children[p := (if p in children then children[p] else []) + [byId[k]]];
    RootsStep(byId, k);
    forall q ensures q in updated <==> q in Ids(byId) && ChildrenAmong(byId, byId[..k + 1], q) != [] {
      ChildrenStep(byId, k, q);
    }
    forall q | q in updated ensures updated[q] == ChildrenAmong(byId, byId[..k + 1], q) {
      ChildrenStep(byId, k, q);
    }
  }

  /** One more record value for the root list. */
  lemma RootsStep(byId: seq<Node>, k: nat)
    requires k < |byId|
    ensures RootsAmong(byId, byId[..k + 1]) ==
            RootsAmong(byId, byId[..k]) + (if Attached(byId, byId[k]) then [] else [byId[k]])
  {
    assert byId[..k + 1] == byId[..k] + [byId[k]];
    FilterSnoc(byId[..k], byId[k], Unattached(byId));
  }

  /** One more record value for the children of `q`. */
  lemma ChildrenStep(byId: seq<Node>, k: nat, q: Id)
    requires k < |byId|
    ensures ChildrenAmong(byId, byId[..k + 1], q) ==
            ChildrenAmong(byId, byId[..k], q) + (if AttachedTo(byId, q)(byId[k]) then [byId[k]] else [])
  {
    assert byId[..k + 1] == byId[..k] + [byId[k]];
    FilterSnoc(byId[..k], byId[k], AttachedTo(byId, q));
  }

  // ---------------------------------------------------------------------------
  // What the builder guarantees

  /** Each node of the record (one per input id) is placed exactly once: in
      its parent's `children` when it names a parent that is present, in the
      root list otherwise. Anything else appears nowhere. */
  lemma PlacedOnce(posts: seq<Node>, e: Node)
    ensures var byId := Index(posts); var f := Assemble(posts);
            && (e in byId && !Attached(byId, e) ==>
                  && multiset(f.roots)[e] == 1
                  && forall p :: p in f.children ==> e !in f.children[p])
            && (e in byId && Attached(byId, e) ==>
                  && e !in f.roots
                  && e.parentId.value in f.children
                  && multiset(f.children[e.parentId.value])[e] == 1
                  && forall p :: p in f.children && p != e.parentId.value ==> e !in f.children[p])
            && (e !in byId ==>
                  && e !in f.roots
                  && forall p :: p in f.children ==> e !in f.children[p])
  {
    var byId := Index(posts);
    FilterCount(byId, Unattached(byId));
    forall p ensures multiset(ChildrenAmong(byId, byId, p))[e] == if AttachedTo(byId, p)(e) then multiset(byId)[e] else 0 {
      FilterCount(byId, AttachedTo(byId, p));
    }
    if e in byId {
      DistinctOnce(byId, e);
    }
  }

  /** A node naming a parent that is not among the input is shown as a root
      (for a parent id that is not an `Object.prototype` member name). */
  lemma OrphanPromoted(posts: seq<Node>, e: Node)
    requires e in Index(posts) && HasParentRef(e) && e.parentId.value !in Ids(posts)
    ensures e in Assemble(posts).roots
  {
    PlacedOnce(posts, e);
  }

  /** The root list keeps the order in which the ids first occur in the input. */
  lemma RootsInInputOrder(posts: seq<Node>, i: nat, j: nat)
    requires i < j < |Assemble(posts).roots|
    ensures Assemble(posts).roots[i].id in Ids(posts) && Assemble(posts).roots[j].id in Ids(posts)
    ensures Pos(posts, Assemble(posts).roots[i].id) < Pos(posts, Assemble(posts).roots[j].id)
  {
    var a, b := RootPositions(posts, i, j);
    IndexOrder(posts, a, b);
  }

  /** Every `children` list keeps the order in which the ids first occur in the input. */
  lemma ChildrenInInputOrder(posts: seq<Node>, p: Id, i: nat, j: nat)
    requires p in Assemble(posts).children && i < j < |Assemble(posts).children[p]|
    ensures Assemble(posts).children[p][i].id in Ids(posts) && Assemble(posts).children[p][j].id in Ids(posts)
    ensures Pos(posts, Assemble(posts).children[p][i].id) < Pos(posts, Assemble(posts).children[p][j].id)
  {
    var a, b := ChildPositions(posts, p, i, j);
    IndexOrder(posts, a, b);
  }

  /** Where two roots sit in the record. */
  lemma RootPositions(posts: seq<Node>, i: nat, j: nat) returns (a: nat, b: nat)
    requires i < j < |Assemble(posts).roots|
    ensures a < b < |Index(posts)|
    ensures Index(posts)[a] == Assemble(posts).roots[i] && Index(posts)[b] == Assemble(posts).roots[j]
  {
    var byId := Index(posts);
    FilterIsSubsequence(byId, Unattached(byId));
    a, b := SubsequenceOrder(Assemble(posts).roots, byId, i, j);
  }

  /** Where two children of `p` sit in the record. */
  lemma ChildPositions(posts: seq<Node>, p: Id, i: nat, j: nat) returns (a: nat, b: nat)
    requires p in Assemble(posts).children && i < j < |Assemble(posts).children[p]|
    ensures a < b < |Index(posts)|
    ensures Index(posts)[a] == Assemble(posts).children[p][i] && Index(posts)[b] == Assemble(posts).children[p][j]
  {
    var byId := Index(posts);
    FilterIsSubsequence(byId, AttachedTo(byId, p));
    a, b := SubsequenceOrder(Assemble(posts).children[p], byId, i, j);
  }

  // ---------------------------------------------------------------------------
  // The forest of a stored thread

  /** `posts` holds the nodes of `nodes`, each once, in any order. */
  ghost predicate SameNodes(posts: seq<Node>, nodes: seq<Node>)
  {
    DistinctIds(posts) && forall n :: n in posts <==> n in nodes
  }

  /** `path` descends the forest: it starts at a root, and each next node is
      in the `children` list of the one before. */
  predicate Descends(f: Forest, path: seq<Node>)
  {
    && |path| > 0
    && path[0] in f.roots
    && forall i :: 0 <= i < |path| - 1 ==> path[i].id in f.children && path[i + 1] in f.children[path[i].id]
  }

  /** Built from the nodes of a store, the forest puts every stored node that
      names a parent in that parent's `children` list and nowhere else, and
      every other stored node in the roots and nowhere else, once. */
  lemma StoredPlacedUnderParent(nodes: seq<Node>, posts: seq<Node>, n: Node)
    requires Linked(nodes) && SameNodes(posts, nodes) && n in nodes
    ensures var f := Assemble(posts);
            && (HasParentRef(n) ==>
                  && n !in f.roots
                  && n.parentId.value in f.children
                  && multiset(f.children[n.parentId.value])[n] == 1
                  && forall p :: p in f.children && p != n.parentId.value ==> n !in f.children[p])
            && (!HasParentRef(n) ==>
                  && multiset(f.roots)[n] == 1
                  && forall p :: p in f.children ==> n !in f.children[p])
  {
    IndexOfDistinct(posts);
    AttachedIffNamesParent(nodes, posts, n);
    PlacedOnce(posts, n);
  }

  /** Over the nodes of a store, a stored node goes under a parent exactly
      when it names one. */
  lemma AttachedIffNamesParent(nodes: seq<Node>, posts: seq<Node>, n: Node)
    requires Linked(nodes) && SameNodes(posts, nodes) && n in nodes
    ensures Attached(posts, n) <==> HasParentRef(n)
  {
    if HasParentRef(n) {
      var i :| 0 <= i < |nodes| && nodes[i] == n;
      var q :| q in nodes[..i] && q.id == n.parentId.value;
      assert q in nodes;
    }
  }

  /** Every stored node is reached from a root by following `children`. */
  lemma {:induction false} StoredReachable(nodes: seq<Node>, posts: seq<Node>, n: Node) returns (path: seq<Node>)
    requires Linked(nodes) && SameNodes(posts, nodes) && n in nodes
    ensures Descends(Assemble(posts), path) && path[|path| - 1] == n
    decreases Pos(nodes, n.id)
  {
    StoredPlacedUnderParent(nodes, posts, n);
    if !HasParentRef(n) {
      path := [n];
    } else {
      var x := n.parentId.value;
      ChildAfterParent(nodes, n, x);
      var q := nodes[Pos(nodes, x)];
      var above := StoredReachable(nodes, posts, q);
      path := above + [n];
      forall i | 0 <= i < |path| - 1
        ensures path[i].id in Assemble(posts).children && path[i + 1] in Assemble(posts).children[path[i].id]
      {
        if i < |above| - 1 {
          assert path[i] == above[i] && path[i + 1] == above[i + 1];
        } else {
          assert path[i] == q && path[i + 1] == n;
        }
      }
    }
  }

  /** What a descent says of its nodes: each is stored, the first names no
      parent, and each later one names the one before as parent. */
  lemma DescentStep(nodes: seq<Node>, posts: seq<Node>, path: seq<Node>, i: nat)
    requires Linked(nodes) && SameNodes(posts, nodes) && Descends(Assemble(posts), path) && i < |path|
    ensures path[i] in nodes
    ensures i == 0 ==> !HasParentRef(path[i])
    ensures i > 0 ==> HasParentRef(path[i]) && path[i].parentId.value == path[i - 1].id
  {
    IndexOfDistinct(posts);
    if i == 0 {
      assert path[0] in RootsAmong(posts, posts);
      AttachedIffNamesParent(nodes, posts, path[0]);
    } else {
      var p := path[i - 1].id;
      assert path[i] in ChildrenAmong(posts, posts, p);
    }
  }

  /** A stored node is reached by one descent only, so from one root only. */
  lemma {:induction false} DescentUnique(nodes: seq<Node>, posts: seq<Node>, p: seq<Node>, q: seq<Node>)
    requires Linked(nodes) && SameNodes(posts, nodes)
    requires Descends(Assemble(posts), p) && Descends(Assemble(posts), q)
    requires p[|p| - 1] == q[|q| - 1]
    ensures p == q
    decreases |p|
  {
    var n := p[|p| - 1];
    DescentStep(nodes, posts, p, |p| - 1);
    DescentStep(nodes, posts, q, |q| - 1);
    if |p| > 1 && |q| > 1 {
      var p', q' := p[..|p| - 1], q[..|q| - 1];
      DescentStep(nodes, posts, p, |p| - 2);
      DescentStep(nodes, posts, q, |q| - 2);
      SameIdSameNode(nodes, p[|p| - 2], q[|q| - 2]);
      DescendsPrefix(Assemble(posts), p);
      DescendsPrefix(Assemble(posts), q);
      DescentUnique(nodes, posts, p', q');
      SplitLast(p);
      SplitLast(q);
    }
  }

  /** A descent without its last node is a descent. */
  lemma DescendsPrefix(f: Forest, p: seq<Node>)
    requires Descends(f, p) && |p| > 1
    ensures Descends(f, p[..|p| - 1]) && p[..|p| - 1][|p| - 2] == p[|p| - 2]
  {
    var p' := p[..|p| - 1];
    forall i | 0 <= i < |p'| - 1 ensures p'[i].id in f.children && p'[i + 1] in f.children[p'[i].id] {
      assert p'[i] == p[i] && p'[i + 1] == p[i + 1];
    }
  }
}
