// The initial load of the web client (web/src/App.tsx:43-60): list the roots,
// walk the subtree of each root in turn, and merge everything into one Map
// keyed by id, whose values become `posts`.

module PostLoader {
  import opened PostTypes
  import opened PostGraph
  import opened PostRoutes
  import opened NodeIndex
  import opened SubtreeLoader

  /** Every listed root is a stored node. */
  predicate AllStored(nodes: seq<Node>, roots: seq<Node>)
  {
    forall k :: 0 <= k < |roots| ==> roots[k].id in Ids(nodes)
  }

  /** The subtrees of the first `k` roots, one after another. */
  function Descendants(nodes: seq<Node>, query: Id -> seq<Node>, roots: seq<Node>, k: nat): seq<Node>
    requires Linked(nodes) && AnswersComments(nodes, query) && AllStored(nodes, roots) && k <= |roots|
  {
    if k == 0 then []
    else
      Descendants(nodes, query, roots, k - 1) + Subtree(nodes, query, roots[k - 1].id)
  }

  /** Every walk below the first `n` roots succeeds. */
  predicate RootsIntact(nodes: seq<Node>, query: Id -> seq<Node>, fetch: Id -> Fetched<seq<Node>>, roots: seq<Node>, n: nat)
    requires Linked(nodes) && AnswersComments(nodes, query) && AllStored(nodes, roots) && n <= |roots|
  {
    forall k :: 0 <= k < n ==> Intact(nodes, query, fetch, roots[k].id)
  }

  /** The values of the Map after the load: the roots, then the walks. */
  function Loaded(nodes: seq<Node>, query: Id -> seq<Node>, roots: seq<Node>): seq<Node>
    requires Linked(nodes) && AnswersComments(nodes, query) && AllStored(nodes, roots)
  {
    Index(roots + Descendants(nodes, query, roots, |roots|))
  }

  /** `loadAll` between `setError(null)` and the `catch`: `listing` is the
      answer to the roots request and `fetch` the comments request. It
      succeeds exactly when the listing and every walk succeed, and then
      yields the merged values. */
  method LoadPosts(ghost nodes: seq<Node>, ghost query: Id -> seq<Node>, ghost resolve: Id -> Id,
                   listing: Fetched<seq<Node>>, fetch: Id -> Fetched<seq<Node>>)
    returns (r: Fetched<seq<Node>>)
    requires Linked(nodes) && AnswersComments(nodes, query) && Serves(nodes, query, resolve, fetch)
    requires listing.Got? ==> AllStored(nodes, listing.value)
    ensures r.Got? <==> listing.Got? && RootsIntact(nodes, query, fetch, listing.value, |listing.value|)
    ensures r.Got? ==> r.value == Loaded(nodes, query, listing.value)
  {
    if listing.Failed? {
      return Failed(listing.reason);
    }
    r := MergeWalks(nodes, query, resolve, fetch, listing.value);
  }

  /** The body of the `try` after the roots arrived: set every root, then
      walk below each root and set what the walk returned. */
  method MergeWalks(ghost nodes: seq<Node>, ghost query: Id -> seq<Node>, ghost resolve: Id -> Id,
                    fetch: Id -> Fetched<seq<Node>>, roots: seq<Node>)
    returns (r: Fetched<seq<Node>>)
    requires Linked(nodes) && AnswersComments(nodes, query) && Serves(nodes, query, resolve, fetch)
    requires AllStored(nodes, roots)
    ensures r.Got? <==> RootsIntact(nodes, query, fetch, roots, |roots|)
    ensures r.Got? ==> r.value == Loaded(nodes, query, roots)
  {
    var m := SetEach([], roots);
    ghost var walks: seq<seq<Node>> := [];
    var i := 0;
    while i < |roots|
      invariant i <= |roots| && |walks| == i
      invariant WalksUpTo(nodes, query, roots, walks)
      invariant m == Merged(roots, walks)
      invariant RootsIntact(nodes, query, fetch, roots, i)
    {
      RootsIntactStep(nodes, query, fetch, roots, i);
      var descendants := FetchSubtree(nodes, query, resolve, fetch, roots[i].id);
      if descendants.Failed? {
        return Failed(descendants.reason);
      }
      WalksStep(nodes, query, roots, walks, descendants.value);
      m := SetEach(m, descendants.value);
      walks := walks + [descendants.value];
      i := i + 1;
    }
    MergedIsLoaded(nodes, query, roots, walks);
    return Got(m);
  }

  /** The walks below the first `i + 1` roots succeed when those below the
      first `i` and the one below root `i` do. */
  lemma RootsIntactStep(nodes: seq<Node>, query: Id -> seq<Node>, fetch: Id -> Fetched<seq<Node>>, roots: seq<Node>, i: nat)
    requires Linked(nodes) && AnswersComments(nodes, query) && AllStored(nodes, roots) && i < |roots|
    ensures roots[i].id in Ids(nodes)
    ensures RootsIntact(nodes, query, fetch, roots, i + 1)
            <==> RootsIntact(nodes, query, fetch, roots, i) && Intact(nodes, query, fetch, roots[i].id)
    ensures RootsIntact(nodes, query, fetch, roots, |roots|) ==> Intact(nodes, query, fetch, roots[i].id)
  {
  }

  /** One more walk, below the next root. */
  lemma WalksStep(nodes: seq<Node>, query: Id -> seq<Node>, roots: seq<Node>, walks: seq<seq<Node>>, w: seq<Node>)
    requires Linked(nodes) && AnswersComments(nodes, query) && AllStored(nodes, roots)
    requires WalksUpTo(nodes, query, roots, walks) && |walks| < |roots|
    requires roots[|walks|].id in Ids(nodes) && w == Subtree(nodes, query, roots[|walks|].id)
    ensures WalksUpTo(nodes, query, roots, walks + [w])
    ensures Merged(roots, walks + [w]) == IndexFrom(Merged(roots, walks), w)
  {
    TakeSnoc(walks, w);
  }

  /** After a walk below every root, the Map holds what the load promises. */
  lemma MergedIsLoaded(nodes: seq<Node>, query: Id -> seq<Node>, roots: seq<Node>, walks: seq<seq<Node>>)
    requires Linked(nodes) && AnswersComments(nodes, query) && AllStored(nodes, roots)
    requires WalksUpTo(nodes, query, roots, walks) && |walks| == |roots|
    ensures Merged(roots, walks) == Loaded(nodes, query, roots)
  {
    MergedIsIndex(roots, walks);
    WalksAreDescendants(nodes, query, roots, walks);
  }

  /** The Map after setting the roots and then each walk in turn. */
  function Merged(roots: seq<Node>, walks: seq<seq<Node>>): (r: seq<Node>)
    ensures DistinctIds(r)
  {
    if walks == [] then IndexFrom([], roots)
    else IndexFrom(Merged(roots, walks[..|walks| - 1]), walks[|walks| - 1])
  }

  lemma {:induction false} MergedIsIndex(roots: seq<Node>, walks: seq<seq<Node>>)
    ensures Merged(roots, walks) == Index(roots + Concat(walks))
  {
    ConcatStep(roots, walks);
    if walks == [] {
      IndexFromIndex([], roots);
    } else {
      var init, w := walks[..|walks| - 1], walks[|walks| - 1];
      MergedIsIndex(roots, init);
      IndexFromIndex(roots + Concat(init), w);
    }
  }

  // Sequence identities, kept apart from the map terms they are used beside.

  lemma ConcatStep(roots: seq<Node>, walks: seq<seq<Node>>)
    ensures walks == [] ==> [] + roots == roots + Concat(walks)
    ensures walks != [] ==> roots + Concat(walks) == (roots + Concat(walks[..|walks| - 1])) + walks[|walks| - 1]
  {
  }

  lemma TakeSnoc(walks: seq<seq<Node>>, w: seq<Node>)
    ensures (walks + [w])[..|walks|] == walks
  {
  }

  /** The walks are those below the first roots, in order. */
  ghost predicate WalksUpTo(nodes: seq<Node>, query: Id -> seq<Node>, roots: seq<Node>, walks: seq<seq<Node>>)
    requires Linked(nodes) && AnswersComments(nodes, query) && AllStored(nodes, roots)
  {
    && |walks| <= |roots|
    && forall k :: 0 <= k < |walks| ==> walks[k] == Subtree(nodes, query, roots[k].id)
  }

  /** The walks one after another. */
  function Concat(walks: seq<seq<Node>>): seq<Node>
  {
    if walks == [] then [] else Concat(walks[..|walks| - 1]) + walks[|walks| - 1]
  }

  lemma {:induction false} WalksAreDescendants(nodes: seq<Node>, query: Id -> seq<Node>, roots: seq<Node>, walks: seq<seq<Node>>)
    requires Linked(nodes) && AnswersComments(nodes, query) && AllStored(nodes, roots)
    requires WalksUpTo(nodes, query, roots, walks)
    ensures Concat(walks) == Descendants(nodes, query, roots, |walks|)
  {
    if walks != [] {
      WalksAreDescendants(nodes, query, roots, walks[..|walks| - 1]);
    }
  }

  /** When no request for a stored id fails, every walk of the load succeeds. */
  lemma AnsweredRootsIntact(nodes: seq<Node>, query: Id -> seq<Node>, fetch: Id -> Fetched<seq<Node>>, roots: seq<Node>)
    requires Linked(nodes) && AnswersComments(nodes, query) && AllStored(nodes, roots)
    requires forall y :: y in Ids(nodes) ==> fetch(y).Got?
    ensures RootsIntact(nodes, query, fetch, roots, |roots|)
  {
    forall k | 0 <= k < |roots| ensures Intact(nodes, query, fetch, roots[k].id) {
      AnsweredIntact(nodes, query, fetch, roots[k].id);
    }
  }

  // ---------------------------------------------------------------------------
  // Where an element of the walks comes from

  lemma {:induction false} DescendantsWitness(nodes: seq<Node>, query: Id -> seq<Node>, roots: seq<Node>, k: nat, d: Node) returns (i: nat)
    requires Linked(nodes) && AnswersComments(nodes, query) && AllStored(nodes, roots) && k <= |roots|
    requires d in Descendants(nodes, query, roots, k)
    ensures i < k && roots[i].id in Ids(nodes) && d in Subtree(nodes, query, roots[i].id)
  {
    assert k > 0;
    var e := Descendants(nodes, query, roots, k - 1);
    if d in e {
      i := DescendantsWitness(nodes, query, roots, k - 1, d);
    } else {
      i := k - 1;
    }
  }

  lemma {:induction false} DescendantsHas(nodes: seq<Node>, query: Id -> seq<Node>, roots: seq<Node>, k: nat, i: nat, d: Node)
    requires Linked(nodes) && AnswersComments(nodes, query) && AllStored(nodes, roots) && i < k <= |roots|
    requires roots[i].id in Ids(nodes) && d in Subtree(nodes, query, roots[i].id)
    ensures d in Descendants(nodes, query, roots, k)
  {
    if i < k - 1 {
      DescendantsHas(nodes, query, roots, k - 1, i, d);
    }
  }

  /** An element of a walk is a stored node with a parent. */
  lemma DescendantIsReply(nodes: seq<Node>, query: Id -> seq<Node>, roots: seq<Node>, d: Node)
    requires Linked(nodes) && AnswersComments(nodes, query) && AllStored(nodes, roots)
    requires d in Descendants(nodes, query, roots, |roots|)
    ensures d in nodes && d.parentId.Some?
  {
    var i := DescendantsWitness(nodes, query, roots, |roots|, d);
    SubtreeSound(nodes, query, roots[i].id, d);
    ParentOfChild(nodes, d);
  }

  // ---------------------------------------------------------------------------
  // Loading from the server

  /** The server's listing holds stored nodes only, each id once. */
  lemma ListingStored(nodes: seq<Node>)
    requires Linked(nodes)
    ensures AllStored(nodes, ListRoots(nodes)) && DistinctIds(ListRoots(nodes))
  {
    var roots := ListRoots(nodes);
    forall k | 0 <= k < |roots| ensures roots[k].id in Ids(nodes) {
      assert roots[k] in roots;
    }
    SubmultisetDistinct(nodes, roots);
  }

  /** A load from the server holds stored nodes only. */
  lemma LoadedSound(nodes: seq<Node>, query: Id -> seq<Node>, n: Node)
    requires Linked(nodes) && AnswersComments(nodes, query)
    ensures AllStored(nodes, ListRoots(nodes))
    ensures n in Loaded(nodes, query, ListRoots(nodes)) ==> n in nodes
  {
    ListingStored(nodes);
    var roots := ListRoots(nodes);
    var all := roots + Descendants(nodes, query, roots, |roots|);
    IndexValues(all);
    if n in Loaded(nodes, query, roots) && n !in roots {
      DescendantIsReply(nodes, query, roots, n);
    }
  }

  /** A load from the server holds every stored node. */
  lemma LoadedComplete(nodes: seq<Node>, query: Id -> seq<Node>, n: Node)
    requires Linked(nodes) && AnswersComments(nodes, query) && n in nodes
    ensures AllStored(nodes, ListRoots(nodes))
    ensures n in Loaded(nodes, query, ListRoots(nodes))
  {
    ListingStored(nodes);
    var roots := ListRoots(nodes);
    var all := roots + Descendants(nodes, query, roots, |roots|);
    ListedOrWalked(nodes, query, n);
    assert n.id in Ids(Index(all));
    var m :| m in Index(all) && m.id == n.id;
    IndexValues(all);
    if m !in roots {
      DescendantIsReply(nodes, query, roots, m);
    }
    SameIdSameNode(nodes, m, n);
  }

  /** A stored node is listed as a root or found by the walk below its root. */
  lemma ListedOrWalked(nodes: seq<Node>, query: Id -> seq<Node>, n: Node)
    requires Linked(nodes) && AnswersComments(nodes, query) && n in nodes
    ensures AllStored(nodes, ListRoots(nodes))
    ensures n in ListRoots(nodes) + Descendants(nodes, query, ListRoots(nodes), |ListRoots(nodes)|)
  {
    ListingStored(nodes);
    var roots := ListRoots(nodes);
    if n.parentId.Some? {
      ParentOfChild(nodes, n);
      var top := RootOf(nodes, n.id);
      var rn := nodes[Pos(nodes, top)];
      assert rn in nodes && rn.parentId.None?;
      var i :| 0 <= i < |roots| && roots[i] == rn;
      SubtreeComplete(nodes, query, top, n);
      DescendantsHas(nodes, query, roots, |roots|, i, n);
    }
  }

  /** Loading from the server yields every stored node, each id once. */
  lemma LoadedExactlyStored(nodes: seq<Node>, query: Id -> seq<Node>)
    requires Linked(nodes) && AnswersComments(nodes, query)
    ensures AllStored(nodes, ListRoots(nodes))
    ensures DistinctIds(Loaded(nodes, query, ListRoots(nodes)))
    ensures forall n :: n in Loaded(nodes, query, ListRoots(nodes)) <==> n in nodes
  {
    ListingStored(nodes);
    forall n ensures n in Loaded(nodes, query, ListRoots(nodes)) <==> n in nodes {
      LoadedSound(nodes, query, n);
      if n in nodes {
        LoadedComplete(nodes, query, n);
      }
    }
  }

  /** The roots come first, as listed. */
  lemma LoadedRootsFirst(nodes: seq<Node>, query: Id -> seq<Node>)
    requires Linked(nodes) && AnswersComments(nodes, query)
    ensures AllStored(nodes, ListRoots(nodes))
    ensures |ListRoots(nodes)| <= |Loaded(nodes, query, ListRoots(nodes))|
    ensures Loaded(nodes, query, ListRoots(nodes))[..|ListRoots(nodes)|] == ListRoots(nodes)
  {
    ListingStored(nodes);
    var roots := ListRoots(nodes);
    var desc := Descendants(nodes, query, roots, |roots|);
    forall y | y in desc ensures y.id !in Ids(roots) {
      DescendantIsReply(nodes, query, roots, y);
      forall r | r in roots ensures r.id != y.id {
        if r.id == y.id {
          SameIdSameNode(nodes, r, y);
          assert false;
        }
      }
    }
    IndexKeepsPrefix(roots, desc);
  }

  /** After the roots, entries follow the first appearance of their ids in the
      roots and walks, in the order the requests returned them. */
  lemma LoadedInFirstAppearanceOrder(nodes: seq<Node>, query: Id -> seq<Node>, roots: seq<Node>, i: nat, j: nat)
    requires Linked(nodes) && AnswersComments(nodes, query) && AllStored(nodes, roots)
    requires i < j < |Loaded(nodes, query, roots)|
    ensures var all := roots + Descendants(nodes, query, roots, |roots|);
      && Loaded(nodes, query, roots)[i].id in Ids(all) && Loaded(nodes, query, roots)[j].id in Ids(all)
      && Pos(all, Loaded(nodes, query, roots)[i].id) < Pos(all, Loaded(nodes, query, roots)[j].id)
  {
    IndexOrder(roots + Descendants(nodes, query, roots, |roots|), i, j);
  }

  /** Over the server with no failed request, the load succeeds. */
  lemma ServerLoadSucceeds(nodes: seq<Node>, toObjectId: string -> Option<Id>)
    requires WellFormedStore(nodes, toObjectId)
    ensures AnswersComments(nodes, CommentsQuery(nodes))
    ensures Serves(nodes, CommentsQuery(nodes), ServerResolve(toObjectId), ServerFetch(nodes, toObjectId, {}))
    ensures AllStored(nodes, ListRoots(nodes))
    ensures RootsIntact(nodes, CommentsQuery(nodes), ServerFetch(nodes, toObjectId, {}), ListRoots(nodes), |ListRoots(nodes)|)
  {
    ServerServes(nodes, toObjectId, {});
    ListingStored(nodes);
    AnsweredRootsIntact(nodes, CommentsQuery(nodes), ServerFetch(nodes, toObjectId, {}), ListRoots(nodes));
  }
}
