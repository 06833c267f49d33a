// The web client's subtree walk (web/src/App.tsx:159-168). The client only
// has a "direct comments of x" query; it walks the whole subtree below a node
// by asking that query for every node it meets, in pre-order.
//
// The walk's specification is stated for any query that answers with exactly
// the stored children of the node asked about, in some order; the server's
// query (PostRoutes.Comments, sorted by creation time) is one such query. A
// request that fails in transport is named by the id it was sent for.

module SubtreeLoader {
  import opened PostTypes
  import opened PostGraph
  import opened PostRoutes

  /** An awaited request: its value, or the error it throws. */
  datatype Fetched<T> = Got(value: T) | Failed(reason: string)

  /** `query(y)` lists the stored children of `y`, each once. */
  ghost predicate AnswersComments(nodes: seq<Node>, query: Id -> seq<Node>)
  {
    && (forall y, n {:trigger n in query(y)} :: n in query(y) <==> n in nodes && n.parentId == Some(y))
    && (forall y :: DistinctIds(query(y)))
  }

  /** The server's answer to a comments request, as a query. */
  function CommentsQuery(nodes: seq<Node>): Id -> seq<Node>
  {
    (y: Id) => Comments(nodes, y)
  }

  /** The server's comments query lists exactly the stored children, each once. */
  lemma ServerAnswers(nodes: seq<Node>)
    requires Linked(nodes)
    ensures AnswersComments(nodes, CommentsQuery(nodes))
  {
    forall y ensures DistinctIds(Comments(nodes, y)) && forall n :: n in Comments(nodes, y) <==> n in nodes && n.parentId == Some(y) {
      CommentsExact(nodes, y);
      SubmultisetDistinct(nodes, Comments(nodes, y));
    }
  }

  /** A comment of `x` is a stored child of `x`, so it is stored after `x`. */
  lemma CommentAfter(nodes: seq<Node>, query: Id -> seq<Node>, x: Id, k: nat)
    requires Linked(nodes) && AnswersComments(nodes, query) && k < |query(x)|
    ensures query(x)[k] in nodes && query(x)[k].parentId == Some(x)
    ensures query(x)[k].id in Ids(nodes) && x in Ids(nodes) && Pos(nodes, x) < Pos(nodes, query(x)[k].id)
  {
    var c := query(x)[k];
    assert c in query(x);
    assert c in nodes && c.parentId == Some(x);
    ChildAfterParent(nodes, c, x);
  }

  // ---------------------------------------------------------------------------
  // What the walk is meant to return

  /** The descendants of `x` in pre-order: each answer to the comments query,
      in the order given, followed at once by its own subtree. */
  function Subtree(nodes: seq<Node>, query: Id -> seq<Node>, x: Id): seq<Node>
    requires Linked(nodes) && AnswersComments(nodes, query) && x in Ids(nodes)
    decreases |nodes| - Pos(nodes, x), 1, 0
  {
    Expand(nodes, query, x, |query(x)|)
  }

  /** The first `k` comments of `x`, each followed by its subtree. */
  function Expand(nodes: seq<Node>, query: Id -> seq<Node>, x: Id, k: nat): seq<Node>
    requires Linked(nodes) && AnswersComments(nodes, query) && x in Ids(nodes) && k <= |query(x)|
    decreases |nodes| - Pos(nodes, x), 0, k
  {
    if k == 0 then []
    else
      CommentAfter(nodes, query, x, k - 1);
      var c := query(x)[k - 1];
      Expand(nodes, query, x, k - 1) + [c] + Subtree(nodes, query, c.id)
  }

  /** `fetch` is the comments request of a client, and `resolve(y)` the node
      a request naming `y` is answered for (a stored id names itself): when
      the request succeeds for `y`, that node is stored and the answer is its
      `query`. */
  ghost predicate Serves(nodes: seq<Node>, query: Id -> seq<Node>, resolve: Id -> Id, fetch: Id -> Fetched<seq<Node>>)
  {
    && (forall y {:trigger resolve(y)} :: y in Ids(nodes) ==> resolve(y) == y)
    && (forall y :: fetch(y).Got? ==> resolve(y) in Ids(nodes) && fetch(y).value == query(resolve(y)))
  }

  /** Every request the walk below `x` makes succeeds: the one for `x`, then
      those below each comment in turn. */
  predicate Intact(nodes: seq<Node>, query: Id -> seq<Node>, fetch: Id -> Fetched<seq<Node>>, x: Id)
    requires Linked(nodes) && AnswersComments(nodes, query) && x in Ids(nodes)
    decreases |nodes| - Pos(nodes, x), 1, 0
  {
    fetch(x).Got? && IntactUpTo(nodes, query, fetch, x, |query(x)|)
  }

  /** The requests below the first `k` comments of `x` succeed. */
  predicate IntactUpTo(nodes: seq<Node>, query: Id -> seq<Node>, fetch: Id -> Fetched<seq<Node>>, x: Id, k: nat)
    requires Linked(nodes) && AnswersComments(nodes, query) && x in Ids(nodes) && k <= |query(x)|
    decreases |nodes| - Pos(nodes, x), 0, k
  {
    if k == 0 then true
    else
      CommentAfter(nodes, query, x, k - 1);
      IntactUpTo(nodes, query, fetch, x, k - 1) && Intact(nodes, query, fetch, query(x)[k - 1].id)
  }

  // ---------------------------------------------------------------------------
  // The walk

  /** `fetchSubtree(nodeId)`, with `fetch` the comments request. It succeeds
      exactly when the request for `nodeId` and every request below the node
      it is answered for succeed, and then returns that node's pre-order
      subtree; for a stored id, exactly when the walk below it is intact. */
  method FetchSubtree(ghost nodes: seq<Node>, ghost query: Id -> seq<Node>, ghost resolve: Id -> Id,
                      fetch: Id -> Fetched<seq<Node>>, nodeId: Id)
    returns (r: Fetched<seq<Node>>)
    requires Linked(nodes) && AnswersComments(nodes, query) && Serves(nodes, query, resolve, fetch)
    ensures r.Got? <==> fetch(nodeId).Got? && IntactUpTo(nodes, query, fetch, resolve(nodeId), |query(resolve(nodeId))|)
    ensures r.Got? ==> r.value == Subtree(nodes, query, resolve(nodeId))
    ensures nodeId in Ids(nodes) ==> (r.Got? <==> Intact(nodes, query, fetch, nodeId))
    ensures nodeId in Ids(nodes) && r.Got? ==> r.value == Subtree(nodes, query, nodeId)
    decreases if resolve(nodeId) in Ids(nodes) then |nodes| - Pos(nodes, resolve(nodeId)) else 0, 1
  {
    var reply := fetch(nodeId);
    if reply.Failed? {
      return reply;
    }
    r := CollectReplies(nodes, query, resolve, fetch, resolve(nodeId), reply.value);
  }

  /** The loop of `fetchSubtree` over the comments of `nodeId`: each comment,
      then what the recursive call returns for it. */
  method CollectReplies(ghost nodes: seq<Node>, ghost query: Id -> seq<Node>, ghost resolve: Id -> Id,
                        fetch: Id -> Fetched<seq<Node>>, ghost nodeId: Id, comments: seq<Node>)
    returns (r: Fetched<seq<Node>>)
    requires Linked(nodes) && AnswersComments(nodes, query) && Serves(nodes, query, resolve, fetch)
    requires nodeId in Ids(nodes) && comments == query(nodeId)
    ensures r.Got? <==> IntactUpTo(nodes, query, fetch, nodeId, |comments|)
    ensures r.Got? ==> r.value == Expand(nodes, query, nodeId, |comments|)
    decreases |nodes| - Pos(nodes, nodeId), 0
  {
    var acc: seq<Node> := [];
    var i := 0;
    while i < |comments|
      invariant i <= |comments|
      invariant acc == Expand(nodes, query, nodeId, i)
      invariant IntactUpTo(nodes, query, fetch, nodeId, i)
    {
      var c := comments[i];
      CommentAfter(nodes, query, nodeId, i);
      acc := acc + [c];
      var deeper := FetchSubtree(nodes, query, resolve, fetch, c.id);
      if deeper.Failed? {
        IntactBelow(nodes, query, fetch, nodeId, |comments|, i);
        return deeper;
      }
      acc := acc + deeper.value;
      i := i + 1;
    }
    return Got(acc);
  }

  /** Requests below the first `j` comments succeed when those below the
      first `k >= j` do. */
  lemma {:induction false} IntactPrefix(nodes: seq<Node>, query: Id -> seq<Node>, fetch: Id -> Fetched<seq<Node>>, x: Id, k: nat, j: nat)
    requires Linked(nodes) && AnswersComments(nodes, query) && x in Ids(nodes) && j <= k <= |query(x)|
    requires IntactUpTo(nodes, query, fetch, x, k)
    ensures IntactUpTo(nodes, query, fetch, x, j)
    decreases k
  {
    if j < k {
      IntactPrefix(nodes, query, fetch, x, k - 1, j);
    }
  }

  /** A walk that succeeds below the first `n` comments of `x` succeeds
      below each of them. */
  lemma IntactBelow(nodes: seq<Node>, query: Id -> seq<Node>, fetch: Id -> Fetched<seq<Node>>, x: Id, n: nat, k: nat)
    requires Linked(nodes) && AnswersComments(nodes, query) && x in Ids(nodes) && k < n <= |query(x)|
    ensures query(x)[k].id in Ids(nodes)
    ensures IntactUpTo(nodes, query, fetch, x, n) ==> Intact(nodes, query, fetch, query(x)[k].id)
  {
    CommentAfter(nodes, query, x, k);
    if IntactUpTo(nodes, query, fetch, x, n) {
      IntactPrefix(nodes, query, fetch, x, n, k + 1);
    }
  }

  /** When no request for a stored id fails, every walk succeeds. */
  lemma {:induction false} AnsweredIntact(nodes: seq<Node>, query: Id -> seq<Node>, fetch: Id -> Fetched<seq<Node>>, x: Id)
    requires Linked(nodes) && AnswersComments(nodes, query) && x in Ids(nodes)
    requires forall y :: y in Ids(nodes) ==> fetch(y).Got?
    ensures Intact(nodes, query, fetch, x)
    decreases |nodes| - Pos(nodes, x), 1, 0
  {
    AnsweredIntactUpTo(nodes, query, fetch, x, |query(x)|);
  }

  lemma {:induction false} AnsweredIntactUpTo(nodes: seq<Node>, query: Id -> seq<Node>, fetch: Id -> Fetched<seq<Node>>, x: Id, k: nat)
    requires Linked(nodes) && AnswersComments(nodes, query) && x in Ids(nodes) && k <= |query(x)|
    requires forall y :: y in Ids(nodes) ==> fetch(y).Got?
    ensures IntactUpTo(nodes, query, fetch, x, k)
    decreases |nodes| - Pos(nodes, x), 0, k
  {
    if k > 0 {
      CommentAfter(nodes, query, x, k - 1);
      AnsweredIntactUpTo(nodes, query, fetch, x, k - 1);
      AnsweredIntact(nodes, query, fetch, query(x)[k - 1].id);
    }
  }

  // ---------------------------------------------------------------------------
  // The subtree holds every descendant, and each once

  /** An element of the first `k` expanded comments lies below one of them. */
  lemma {:induction false} ExpandWitness(nodes: seq<Node>, query: Id -> seq<Node>, x: Id, k: nat, d: Node) returns (j: nat)
    requires Linked(nodes) && AnswersComments(nodes, query) && x in Ids(nodes) && k <= |query(x)|
    requires d in Expand(nodes, query, x, k)
    ensures j < k && d in nodes && d.id in Ids(nodes) && query(x)[j].id in Ids(nodes)
    ensures Reaches(nodes, d.id, query(x)[j].id)
    decreases |nodes| - Pos(nodes, x), 0, k
  {
    assert k > 0;
    CommentAfter(nodes, query, x, k - 1);
    var c := query(x)[k - 1];
    var e := Expand(nodes, query, x, k - 1);
    var sub := Subtree(nodes, query, c.id);
    assert d in e + [c] + sub;
    if d in e {
      j := ExpandWitness(nodes, query, x, k - 1, d);
    } else if d == c {
      j := k - 1;
    } else {
      assert d in sub;
      SubtreeSound(nodes, query, c.id, d);
      j := k - 1;
    }
  }

  /** Only proper descendants of `x` are in its subtree. */
  lemma {:induction false} SubtreeSound(nodes: seq<Node>, query: Id -> seq<Node>, x: Id, d: Node)
    requires Linked(nodes) && AnswersComments(nodes, query) && x in Ids(nodes)
    requires d in Subtree(nodes, query, x)
    ensures d in nodes && d.id in Ids(nodes) && d.id != x && Reaches(nodes, d.id, x)
    decreases |nodes| - Pos(nodes, x), 1, 0
  {
    var j := ExpandWitness(nodes, query, x, |query(x)|, d);
    CommentAfter(nodes, query, x, j);
    var c := query(x)[j];
    ReachesEarlier(nodes, d.id, c.id);
    ParentOfChild(nodes, c);
    assert Reaches(nodes, c.id, x);
    ReachesTrans(nodes, d.id, c.id, x);
  }

  /** A comment among the first `k`, and everything below it, is in their expansion. */
  lemma {:induction false} ExpandHas(nodes: seq<Node>, query: Id -> seq<Node>, x: Id, k: nat, j: nat, d: Node)
    requires Linked(nodes) && AnswersComments(nodes, query) && x in Ids(nodes) && j < k <= |query(x)|
    requires query(x)[j].id in Ids(nodes)
    requires d == query(x)[j] || d in Subtree(nodes, query, query(x)[j].id)
    ensures d in Expand(nodes, query, x, k)
    decreases k
  {
    CommentAfter(nodes, query, x, k - 1);
    if j < k - 1 {
      ExpandHas(nodes, query, x, k - 1, j, d);
    }
  }

  /** Every proper descendant of `x` is in its subtree. */
  lemma {:induction false} SubtreeComplete(nodes: seq<Node>, query: Id -> seq<Node>, x: Id, d: Node)
    requires Linked(nodes) && AnswersComments(nodes, query) && x in Ids(nodes)
    requires d in nodes && d.id in Ids(nodes) && d.id != x && Reaches(nodes, d.id, x)
    ensures d in Subtree(nodes, query, x)
    decreases |nodes| - Pos(nodes, x)
  {
    var c := ChildOnPath(nodes, d.id, x);
    assert c in query(x);
    var j :| 0 <= j < |query(x)| && query(x)[j] == c;
    CommentAfter(nodes, query, x, j);
    if d != c {
      assert d.id != c.id by {
        if d.id == c.id {
          SameIdSameNode(nodes, d, c);
        }
      }
      SubtreeComplete(nodes, query, c.id, d);
    }
    ExpandHas(nodes, query, x, |query(x)|, j, d);
  }

  /** No node occurs twice in a subtree. */
  lemma {:induction false} SubtreeDistinct(nodes: seq<Node>, query: Id -> seq<Node>, x: Id)
    requires Linked(nodes) && AnswersComments(nodes, query) && x in Ids(nodes)
    ensures DistinctIds(Subtree(nodes, query, x))
    decreases |nodes| - Pos(nodes, x), 1, 0
  {
    ExpandDistinct(nodes, query, x, |query(x)|);
  }

  lemma {:induction false} ExpandDistinct(nodes: seq<Node>, query: Id -> seq<Node>, x: Id, k: nat)
    requires Linked(nodes) && AnswersComments(nodes, query) && x in Ids(nodes) && k <= |query(x)|
    ensures DistinctIds(Expand(nodes, query, x, k))
    decreases |nodes| - Pos(nodes, x), 0, k
  {
    if k > 0 {
      CommentAfter(nodes, query, x, k - 1);
      var c := query(x)[k - 1];
      var e := Expand(nodes, query, x, k - 1);
      var sub := Subtree(nodes, query, c.id);
      ExpandDistinct(nodes, query, x, k - 1);
      SubtreeDistinct(nodes, query, c.id);
      forall f | f in sub ensures c.id != f.id {
        SubtreeSound(nodes, query, c.id, f);
      }
      DistinctConcat([c], sub);
      forall a, f | a in e && f in [c] + sub ensures a.id != f.id {
        SeparateBranches(nodes, query, x, k, a, f);
      }
      DistinctConcat(e, [c] + sub);
      assert Expand(nodes, query, x, k) == e + ([c] + sub);
    }
  }

  /** What lies below an earlier comment differs in id from the last comment
      and everything below it. */
  lemma SeparateBranches(nodes: seq<Node>, query: Id -> seq<Node>, x: Id, k: nat, a: Node, f: Node)
    requires Linked(nodes) && AnswersComments(nodes, query) && x in Ids(nodes) && 0 < k <= |query(x)|
    requires query(x)[k - 1].id in Ids(nodes)
    requires a in Expand(nodes, query, x, k - 1)
    requires f in [query(x)[k - 1]] + Subtree(nodes, query, query(x)[k - 1].id)
    ensures a.id != f.id
  {
    var c := query(x)[k - 1];
    var j := ExpandWitness(nodes, query, x, k - 1, a);
    CommentAfter(nodes, query, x, j);
    var b := query(x)[j];
    assert b.id != c.id;
    BelowComment(nodes, query, x, k - 1, f);
    if a.id == f.id {
      OneBranch(nodes, a.id, b, c, x);
      assert false;
    }
  }

  /** A comment, and everything below it, is a stored node that reaches it. */
  lemma BelowComment(nodes: seq<Node>, query: Id -> seq<Node>, x: Id, k: nat, f: Node)
    requires Linked(nodes) && AnswersComments(nodes, query) && k < |query(x)|
    requires query(x)[k].id in Ids(nodes)
    requires f in [query(x)[k]] + Subtree(nodes, query, query(x)[k].id)
    ensures query(x)[k] in nodes && query(x)[k].parentId == Some(x)
    ensures f in nodes && f.id in Ids(nodes) && Reaches(nodes, f.id, query(x)[k].id)
  {
    CommentAfter(nodes, query, x, k);
    var c := query(x)[k];
    if f != c {
      SubtreeSound(nodes, query, c.id, f);
    }
  }

  /** The walk's result holds each proper descendant of `x`, and only those,
      each exactly once. */
  lemma SubtreeExactlyDescendants(nodes: seq<Node>, query: Id -> seq<Node>, x: Id)
    requires Linked(nodes) && AnswersComments(nodes, query) && x in Ids(nodes)
    ensures DistinctIds(Subtree(nodes, query, x))
    ensures forall d :: d in Subtree(nodes, query, x) <==> d in nodes && d.id != x && Reaches(nodes, d.id, x)
  {
    SubtreeDistinct(nodes, query, x);
    forall d ensures d in Subtree(nodes, query, x) <==> d in nodes && d.id != x && Reaches(nodes, d.id, x) {
      if d in Subtree(nodes, query, x) {
        SubtreeSound(nodes, query, x, d);
      } else if d in nodes && d.id != x && Reaches(nodes, d.id, x) {
        SubtreeComplete(nodes, query, x, d);
      }
    }
  }

  // ---------------------------------------------------------------------------
  // The server as the client sees it

  /** The comments request for `x` as it reaches the comments route (the
      path the web client builds for it does not reach the route; see
      Api.DefaultBaseDoublesPrefix): the comments the server sends, or the
      error thrown for a request lost in transport or a 400/404 answer. */
  function RequestComments(nodes: seq<Node>, toObjectId: string -> Option<Id>, lost: set<Id>, x: Id): (r: Fetched<seq<Node>>)
    ensures r.Got? <==> x !in lost && toObjectId(x).Some? && toObjectId(x).value in Ids(nodes)
    ensures r.Got? ==> r.value == Comments(nodes, toObjectId(x).value)
  {
    if x in lost then Failed("network error")
    else
      match GetWithChildren(nodes, toObjectId, x)
      case Ok(body) => Got(body.comments)
      case BadRequest(m) => Failed(m)
      case NotFound(m) => Failed(m)
      case Created(_) => assert false; Failed("")  // a GET route never answers 201
  }

  function ServerFetch(nodes: seq<Node>, toObjectId: string -> Option<Id>, lost: set<Id>): Id -> Fetched<seq<Node>>
  {
    (x: Id) => RequestComments(nodes, toObjectId, lost, x)
  }

  /** The node a request naming `x` is answered for: the parsed id. */
  function ServerResolve(toObjectId: string -> Option<Id>): Id -> Id
  {
    (x: Id) => if toObjectId(x).Some? then toObjectId(x).value else x
  }

  /** Against a well-formed store, the comments request serves the server's
      comments query, and fails for a stored id only when it is lost. */
  lemma ServerServes(nodes: seq<Node>, toObjectId: string -> Option<Id>, lost: set<Id>)
    requires WellFormedStore(nodes, toObjectId)
    ensures AnswersComments(nodes, CommentsQuery(nodes))
    ensures Serves(nodes, CommentsQuery(nodes), ServerResolve(toObjectId), ServerFetch(nodes, toObjectId, lost))
    ensures forall x :: x in Ids(nodes) ==> (ServerFetch(nodes, toObjectId, lost)(x).Got? <==> x !in lost)
  {
    ServerAnswers(nodes);
    forall x | x in Ids(nodes) ensures toObjectId(x) == Some(x) {
      var n :| n in nodes && n.id == x;
      var i :| 0 <= i < |nodes| && nodes[i] == n;
    }
  }
}
