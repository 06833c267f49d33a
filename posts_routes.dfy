// The three request handlers of the posts router (src/routes/posts.ts), over
// an in-memory node store. The document store itself is modelled by its
// contents, a sequence of nodes in insertion order; its id generator and the
// clock are parameters of Create.

module PostRoutes {
  import opened PostTypes
  import opened Collections
  import opened PostGraph
  import JsText

  /** A field of a JSON request body, as the handler sees it. */
  datatype Field =
    | Absent                      // undefined
    | Null
    | Text(s: string)
    | NonText(asString: string)   // a number, boolean, array or object; `String(v)` gives `asString`

  /** A handler's answer: 201, 200, 400 or 404 with its JSON body. */
  datatype Reply<T> = Created(node: T) | Ok(body: T) | BadRequest(message: string) | NotFound(message: string)

  datatype PostWithComments = PostWithComments(post: Node, comments: seq<Node>)

  // ---------------------------------------------------------------------------
  // The store and its invariant

  /** What every reachable store satisfies: unique ids, each the hex text of
      an ObjectId (so it parses back to itself), parents stored before their
      children, and `updatedAt` equal to `createdAt`. */
  predicate WellFormedStore(nodes: seq<Node>, toObjectId: string -> Option<Id>)
  {
    && Linked(nodes)
    && (forall i :: 0 <= i < |nodes| ==> toObjectId(nodes[i].id) == Some(nodes[i].id))
    && (forall i :: 0 <= i < |nodes| ==> nodes[i].createdAt == nodes[i].updatedAt)
  }

  // ---------------------------------------------------------------------------
  // Ordering by creation time: `.sort({createdAt: 1})`

  predicate SortedByCreated(s: seq<Node>)
  {
    forall i, j :: 0 <= i < j < |s| ==> s[i].createdAt <= s[j].createdAt
  }

  function InsertByCreated(n: Node, s: seq<Node>): (r: seq<Node>)
    requires SortedByCreated(s)
    ensures SortedByCreated(r)
    ensures multiset(r) == multiset(s) + multiset{n}
  {
    if s == [] || n.createdAt <= s[0].createdAt then
      [n] + s
    else
      var t := InsertByCreated(n, s[1..]);
      assert s == [s[0]] + s[1..];
      LowerBound(s[0], n, s[1..], t);
      SortedCons(s[0], t);
      [s[0]] + t
  }

  lemma LowerBound(a: Node, n: Node, s: seq<Node>, t: seq<Node>)
    requires a.createdAt <= n.createdAt
    requires forall i :: 0 <= i < |s| ==> a.createdAt <= s[i].createdAt
    requires multiset(t) == multiset(s) + multiset{n}
    ensures forall i :: 0 <= i < |t| ==> a.createdAt <= t[i].createdAt
  {
    forall i | 0 <= i < |t| ensures a.createdAt <= t[i].createdAt {
      assert t[i] in multiset(t);
      if t[i] != n {
        assert t[i] in multiset(s);
        var k :| 0 <= k < |s| && s[k] == t[i];
      }
    }
  }

  lemma SortedCons(a: Node, t: seq<Node>)
    requires SortedByCreated(t)
    requires forall i :: 0 <= i < |t| ==> a.createdAt <= t[i].createdAt
    ensures SortedByCreated([a] + t)
  {
    var r := [a] + t;
    forall i, j | 0 <= i < j < |r| ensures r[i].createdAt <= r[j].createdAt {
      if i > 0 {
        assert r[i] == t[i - 1] && r[j] == t[j - 1];
      } else {
        assert r[j] == t[j - 1];
      }
    }
  }

  /** A permutation of `s` in non-decreasing `createdAt` order. */
  function SortByCreated(s: seq<Node>): (r: seq<Node>)
    ensures SortedByCreated(r)
    ensures multiset(r) == multiset(s)
  {
    if s == [] then []
    else
      assert s == [s[0]] + s[1..];
      InsertByCreated(s[0], SortByCreated(s[1..]))
  }

  // ---------------------------------------------------------------------------
  // GET /: the top-level posts

  predicate IsRoot(n: Node)
  {
    n.parentId.None?
  }

  /** Exactly the stored nodes without a parent, each as often as stored,
      oldest first. */
  function ListRoots(nodes: seq<Node>): (r: seq<Node>)
    ensures SortedByCreated(r)
    ensures forall n :: multiset(r)[n] == if n.parentId.None? then multiset(nodes)[n] else 0
    ensures forall n :: n in r <==> n in nodes && n.parentId.None?
  {
    FilterCount(nodes, IsRoot);
    SortByCreated(Filter(nodes, IsRoot))
  }

  // ---------------------------------------------------------------------------
  // GET /:postId/comments: a node and its direct comments

  function IsChildOf(x: Id): Node -> bool
  {
    (n: Node) => n.parentId == Some(x)
  }

  /** The stored nodes whose parent is `x`, in store order. */
  function ChildrenOf(nodes: seq<Node>, x: Id): seq<Node>
  {
    Filter(nodes, IsChildOf(x))
  }

  /** The direct comments of `x`, oldest first (see CommentsExact). */
  function Comments(nodes: seq<Node>, x: Id): seq<Node>
  {
    SortByCreated(ChildrenOf(nodes, x))
  }

  /** The direct comments of `x` are exactly its stored children, each as
      often as stored, oldest first. */
  lemma CommentsExact(nodes: seq<Node>, x: Id)
    ensures SortedByCreated(Comments(nodes, x))
    ensures forall n :: multiset(Comments(nodes, x))[n] == if n.parentId == Some(x) then multiset(nodes)[n] else 0
    ensures forall n :: n in Comments(nodes, x) <==> n in nodes && n.parentId == Some(x)
  {
    FilterCount(nodes, IsChildOf(x));
  }

  /** 400 for a `postId` that does not parse as an ObjectId; otherwise the
      lookups use the parsed id, so any text naming a stored node's ObjectId
      finds it: 404 when none is stored (whether or not anything names it as
      parent), else the node and its direct comments. */
  function GetWithChildren(nodes: seq<Node>, toObjectId: string -> Option<Id>, postId: string): (r: Reply<PostWithComments>)
    ensures r.Ok? || r.BadRequest? || r.NotFound?
    ensures r.BadRequest? <==> toObjectId(postId).None?
    ensures r.NotFound? <==> toObjectId(postId).Some? && toObjectId(postId).value !in Ids(nodes)
    ensures r.Ok? ==> r.body.post in nodes && Some(r.body.post.id) == toObjectId(postId)
    ensures r.Ok? ==> SortedByCreated(r.body.comments)
    ensures r.Ok? ==> forall n :: multiset(r.body.comments)[n] == if n.parentId == toObjectId(postId) then multiset(nodes)[n] else 0
    ensures r.Ok? ==> forall c :: c in r.body.comments ==> c.parentId == toObjectId(postId)
  {
    match toObjectId(postId)
    case None => BadRequest("invalid postId")
    case Some(oid) =>
      CommentsExact(nodes, oid);
      match Find(nodes, oid)  // `findOne`
      case None => NotFound("post not found")
      case Some(post) => Ok(PostWithComments(post, Comments(nodes, oid)))
  }

  // ---------------------------------------------------------------------------
  // POST /: create a post or a comment

  /** The content check, `typeof content === "string"` and a non-empty
      `content.trim()`: a string that is not all whitespace. */
  predicate ContentAccepted(content: Field): (ok: bool)
    ensures ok <==> content.Text? && !JsText.Blank(content.s)
  {
    content.Text? && (JsText.TrimEmptyIffBlank(content.s); |JsText.Trim(content.s)| != 0)
  }

  /** The parent id the request names, as text: none when absent or null. */
  function RequestedParent(parentId: Field): (r: Option<string>)
    ensures r.None? <==> parentId.Absent? || parentId.Null?
    ensures parentId.Text? ==> r == Some(parentId.s)
    ensures parentId.NonText? ==> r == Some(parentId.asString)
  {
    match parentId
    case Absent => None
    case Null => None
    case Text(s) => Some(s)
    case NonText(t) => Some(t)
  }

  /** The parent the created node records: none when the request names
      none, else the parsed id (a name that does not parse is rejected
      before this is used). */
  function ParentObjectId(toObjectId: string -> Option<Id>, parentId: Field): Option<Id>
  {
    match RequestedParent(parentId)
    case None => None
    case Some(text) => toObjectId(text)
  }

  /** Whether `text` parses to the id of a stored node. */
  predicate ParentStored(nodes: seq<Node>, toObjectId: string -> Option<Id>, text: string)
  {
    toObjectId(text).Some? && toObjectId(text).value in Ids(nodes)
  }

  class NodeStore {
    /** `toObjectId`: the hex text of the ObjectId that `new ObjectId(text)`
        makes, or none when it throws. */
    const toObjectId: string -> Option<Id>
    /** The collection's documents, in insertion order. */
    var nodes: seq<Node>

    ghost predicate Valid()
      reads this
    {
      WellFormedStore(nodes, toObjectId)
    }

    constructor (toObjectId: string -> Option<Id>)
      ensures Valid() && nodes == [] && this.toObjectId == toObjectId
    {
      this.toObjectId := toObjectId;
      nodes := [];
    }

    /** The POST handler. Content is checked first, then the parent id's
        syntax, then the existence of the parent it parses to; any failure
        leaves the store as it was. On success exactly one node is appended
        and returned, recording the parsed parent id. */
    method Create(content: Field, parentId: Field, freshId: Id, now: Instant) returns (reply: Reply<Node>)
      requires Valid()
      requires toObjectId(freshId) == Some(freshId) && freshId !in Ids(nodes)
      modifies this
      ensures Valid()
      ensures !ContentAccepted(content) ==> reply == BadRequest("content is required")
      ensures ContentAccepted(content) && RequestedParent(parentId).Some? && toObjectId(RequestedParent(parentId).value).None?
              ==> reply == BadRequest("invalid parentId")
      ensures ContentAccepted(content) && RequestedParent(parentId).Some? && toObjectId(RequestedParent(parentId).value).Some?
              && toObjectId(RequestedParent(parentId).value).value !in Ids(old(nodes))
              ==> reply == NotFound("parent not found")
      ensures reply.Created? <==>
                ContentAccepted(content) &&
                (RequestedParent(parentId).Some? ==> ParentStored(old(nodes), toObjectId, RequestedParent(parentId).value))
      ensures !reply.Created? ==> nodes == old(nodes)
      ensures reply.Created? ==>
                && nodes == old(nodes) + [reply.node]
                && reply.node == Node(freshId, content.s, ParentObjectId(toObjectId, parentId), now, now)
    {
      if !content.Text? || |JsText.Trim(content.s)| == 0 {
        return BadRequest("content is required");
      }
      assert ContentAccepted(content);

      var parentObjectId: Option<Id> := None;
      if parentId != Absent && parentId != Null {
        var oid := if parentId.Text? then parentId.s else parentId.asString;
        var parsed := toObjectId(oid);
        if parsed.None? {
          return BadRequest("invalid parentId");
        }
        var parent := Find(nodes, parsed.value);  // `findOne`
        if parent.None? {
          return NotFound("parent not found");
        }
        parentObjectId := parsed;
      }

      assert parentObjectId == ParentObjectId(toObjectId, parentId);
      var doc := Node(freshId, content.s, parentObjectId, now, now);
      AppendKeepsStore(nodes, doc, toObjectId);
      FindAppended(nodes, doc);
      nodes := nodes + [doc];

      // Read the inserted document back by its id (`findOne`).
      var inserted := Find(nodes, freshId);
      reply := Created(inserted.value);
    }
  }

  /** Appending a node whose parent is already stored keeps the invariant. */
  lemma AppendKeepsStore(nodes: seq<Node>, doc: Node, toObjectId: string -> Option<Id>)
    requires WellFormedStore(nodes, toObjectId)
    requires toObjectId(doc.id) == Some(doc.id) && doc.id !in Ids(nodes) && doc.createdAt == doc.updatedAt
    requires doc.parentId.Some? ==> doc.parentId.value in Ids(nodes)
    ensures WellFormedStore(nodes + [doc], toObjectId)
  {
    var s := nodes + [doc];
    assert s[..|nodes|] == nodes;
    forall i, j | 0 <= i < j < |s| ensures s[i].id != s[j].id {
      if j == |nodes| {
        assert s[i] in nodes;
      }
    }
    forall i | 0 <= i < |s| && s[i].parentId.Some? ensures s[i].parentId.value in Ids(s[..i]) {
      if i < |nodes| {
        assert s[..i] == nodes[..i];
      }
    }
  }
}
