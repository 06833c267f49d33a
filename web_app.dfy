// The state of the web client (web/src/App.tsx:17-20) and the handlers that
// change it: the initial load (43-60), `createComment` (64-72) and the
// top-level post button (87-96). The server they talk to is the store of
// PostRoutes, and each request is answered as the posts router would answer
// it (the paths the source passes do not reach it with the default base; see
// Api.DefaultBaseDoublesPrefix); a request lost in transport is a parameter.

module WebClient {
  import opened PostTypes
  import opened PostGraph
  import opened PostRoutes
  import opened SubtreeLoader
  import opened PostLoader
  import JsText
  import ThreadTree

  /** `e?.message || 'Failed to load'`: the message shown for a failed load. */
  function LoadErrorText(reason: string): (r: string)
    ensures r != ""
    ensures reason != "" ==> r == reason
  {
    if reason == "" then "Failed to load" else reason
  }

  /** `posts` shows the store: each stored node once and nothing else, the
      listed roots first and in their listed order. */
  ghost predicate ShowsStore(posts: seq<Node>, nodes: seq<Node>)
  {
    && DistinctIds(posts)
    && (forall n :: n in posts <==> n in nodes)
    && |ListRoots(nodes)| <= |posts|
    && posts[..|ListRoots(nodes)|] == ListRoots(nodes)
  }

  /** The tree built from what a successful load shows holds the store:
      every stored node is reached from a root by following `children`, and
      by one descent only, so from exactly one root. */
  lemma ShownForest(stored: seq<Node>, posts: seq<Node>, n: Node) returns (path: seq<Node>)
    requires Linked(stored) && ShowsStore(posts, stored) && n in stored
    ensures ThreadTree.Descends(ThreadTree.Assemble(posts), path) && path[|path| - 1] == n
    ensures forall q :: ThreadTree.Descends(ThreadTree.Assemble(posts), q) && q[|q| - 1] == n ==> q == path
  {
    path := ThreadTree.StoredReachable(stored, posts, n);
    forall q | ThreadTree.Descends(ThreadTree.Assemble(posts), q) && q[|q| - 1] == n ensures q == path {
      ThreadTree.DescentUnique(stored, posts, q, path);
    }
  }

  /** Every walk of a load from the server succeeds when comments requests
      for the ids in `lost` are lost in transport. */
  ghost predicate WalksSucceed(nodes: seq<Node>, toObjectId: string -> Option<Id>, lost: set<Id>)
    requires WellFormedStore(nodes, toObjectId)
  {
    ServerAnswers(nodes);
    ListingStored(nodes);
    RootsIntact(nodes, CommentsQuery(nodes), ServerFetch(nodes, toObjectId, lost), ListRoots(nodes), |ListRoots(nodes)|)
  }

  /** The `try` block of `loadAll` against the store: the roots request is
      lost when `listLost`, the comments requests for the ids in `lost`. On
      success the result is the load as `loadAll` assembles it: the listed
      roots, then each walk's nodes, an id kept where it first appears; so it
      holds each stored node once, roots first as listed. */
  method LoadFromServer(nodes: seq<Node>, toObjectId: string -> Option<Id>, listLost: bool, lost: set<Id>)
    returns (r: Fetched<seq<Node>>)
    requires WellFormedStore(nodes, toObjectId)
    ensures r.Got? <==> !listLost && WalksSucceed(nodes, toObjectId, lost)
    ensures r.Got? ==> ShowsStore(r.value, nodes)
    ensures r.Got? ==>
      && Linked(nodes) && AnswersComments(nodes, CommentsQuery(nodes)) && AllStored(nodes, ListRoots(nodes))
      && r.value == Loaded(nodes, CommentsQuery(nodes), ListRoots(nodes))
    ensures !listLost && lost == {} ==> r.Got?
  {
    ghost var query := CommentsQuery(nodes);
    var fetch := ServerFetch(nodes, toObjectId, lost);
    ServerServes(nodes, toObjectId, lost);
    ListingStored(nodes);
    var listing := if listLost then Failed("network error") else Got(ListRoots(nodes));
    r := LoadPosts(nodes, query, ServerResolve(toObjectId), listing, fetch);
    if r.Got? {
      LoadedExactlyStored(nodes, query);
      LoadedRootsFirst(nodes, query);
    }
    if !listLost && lost == {} {
      ServerLoadSucceeds(nodes, toObjectId);
    }
  }

  class WebApp {
    var posts: seq<Node>
    var content: string
    var loading: bool
    var error: Option<string>

    constructor ()
      ensures posts == [] && content == "" && !loading && error == None
    {
      posts := [];
      content := "";
      loading := false;
      error := None;
    }

    /** `loadAll`: list the roots, walk below each, and show every node
        fetched, one per id. `stored` is what the server holds; `listLost`
        loses the roots request in transport, `lost` the comments requests
        for those ids. A failure leaves `posts` as it was and shows a
        message; `loading` ends false either way. */
    method LoadAll(stored: seq<Node>, toObjectId: string -> Option<Id>, listLost: bool, lost: set<Id>)
      requires WellFormedStore(stored, toObjectId)
      modifies this
      ensures !loading && content == old(content)
      ensures error.Some? ==> posts == old(posts) && error.value != ""
      ensures error.None? ==> ShowsStore(posts, stored)
      ensures error.None? ==>
        && Linked(stored) && AnswersComments(stored, CommentsQuery(stored)) && AllStored(stored, ListRoots(stored))
        && posts == Loaded(stored, CommentsQuery(stored), ListRoots(stored))
      ensures error.None? <==> !listLost && WalksSucceed(stored, toObjectId, lost)
      ensures !listLost && lost == {} ==> error.None?
    {
      loading := true;
      error := None;
      var r := LoadFromServer(stored, toObjectId, listLost, lost);
      Show(r);
    }

    /** The `catch` and `finally` of `loadAll`: show what was fetched, or the
        failure, and end the loading state. */
    method Show(r: Fetched<seq<Node>>)
      modifies this
      ensures !loading && content == old(content)
      ensures r.Got? ==> posts == r.value && error == old(error)
      ensures r.Failed? ==> posts == old(posts) && error == Some(LoadErrorText(r.reason))
    {
      if r.Got? {
        posts := r.value;
      } else {
        error := Some(LoadErrorText(r.reason));
      }
      loading := false;
    }

    /** `createComment(parentId, text)`: blank text sends nothing; otherwise
        the reply is posted under `parentId`, and the created node, when the
        server creates one (the id parses to a stored node's), is appended to
        `posts`. */
    method CreateComment(server: NodeStore, parentId: Id, text: string, freshId: Id, now: Instant)
      requires server.Valid() && server.toObjectId(freshId) == Some(freshId) && freshId !in Ids(server.nodes)
      modifies this, server
      ensures server.Valid()
      ensures content == old(content) && loading == old(loading) && error == old(error)
      ensures JsText.Blank(text) ==> server.nodes == old(server.nodes) && posts == old(posts)
      ensures !JsText.Blank(text) && ParentStored(old(server.nodes), server.toObjectId, parentId) ==>
                var created := Node(freshId, text, server.toObjectId(parentId), now, now);
                server.nodes == old(server.nodes) + [created] && posts == old(posts) + [created]
      ensures !JsText.Blank(text) && !ParentStored(old(server.nodes), server.toObjectId, parentId) ==>
                server.nodes == old(server.nodes) && posts == old(posts)
    {
      JsText.TrimEmptyIffBlank(text);
      if |JsText.Trim(text)| == 0 {
        return;
      }
      assert !JsText.Blank(text);
      assert ContentAccepted(Text(text)) && RequestedParent(Text(parentId)) == Some(parentId);
      assert ParentObjectId(server.toObjectId, Text(parentId)) == server.toObjectId(parentId);
      var reply := server.Create(Text(text), Text(parentId), freshId, now);
      if reply.Created? {
        posts := posts + [reply.node];
      }
    }

    /** The top-level post button: blank `content` sends nothing; otherwise a
        root with that content is always created, appended to `posts`, and
        the input cleared. */
    method SubmitPost(server: NodeStore, freshId: Id, now: Instant)
      requires server.Valid() && server.toObjectId(freshId) == Some(freshId) && freshId !in Ids(server.nodes)
      modifies this, server
      ensures server.Valid()
      ensures loading == old(loading) && error == old(error)
      ensures JsText.Blank(old(content)) ==>
                server.nodes == old(server.nodes) && posts == old(posts) && content == old(content)
      ensures !JsText.Blank(old(content)) ==>
                var created := Node(freshId, old(content), None, now, now);
                server.nodes == old(server.nodes) + [created] && posts == old(posts) + [created] && content == ""
    {
      JsText.TrimEmptyIffBlank(content);
      if |JsText.Trim(content)| == 0 {
        return;
      }
      assert !JsText.Blank(content);
      assert ContentAccepted(Text(content)) && RequestedParent(Absent) == None;
      assert ParentObjectId(server.toObjectId, Absent) == None;
      var reply := server.Create(Text(content), Absent, freshId, now);
      if reply.Created? {
        posts := posts + [reply.node];
        content := "";
      }
    }
  }
}
