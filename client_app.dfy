// The state of the second client (src/client/App.tsx:20-21) and the handlers
// that change it: the initial load (43-45), `createPost` (47-58) and the
// top-level post button (71-80). Its requests use the server-relative path
// `/api/posts` directly. The server is the store of PostRoutes; a request
// lost in transport is a parameter.

module Client {
  import opened PostTypes
  import opened PostRoutes
  import JsText

  /** The body `createPost` sends for `parentId`: the id only when it is a
      non-empty string, and nothing otherwise. */
  function ParentField(parentId: Option<string>): (f: Field)
    ensures f == Absent || (parentId.Some? && f == Text(parentId.value))
    ensures f.Text? <==> parentId.Some? && parentId.value != ""
  {
    if parentId.Some? && parentId.value != "" then Text(parentId.value) else Absent
  }

  class ClientApp {
    var posts: seq<Node>
    var content: string

    constructor ()
      ensures posts == [] && content == ""
    {
      posts := [];
      content := "";
    }

    /** The effect on mount: `posts` becomes the listed roots, and only
        those; a failed request is logged and changes nothing. */
    method InitialLoad(server: NodeStore, lost: bool)
      modifies this
      ensures content == old(content)
      ensures lost ==> posts == old(posts)
      ensures !lost ==> posts == ListRoots(server.nodes)
      ensures !lost ==> SortedByCreated(posts) && forall n :: n in posts <==> n in server.nodes && n.parentId.None?
    {
      if !lost {
        posts := ListRoots(server.nodes);
      }
    }

    /** `createPost(parentId)`, with `answer` what `prompt` returned (`None`
        when cancelled). An empty or cancelled answer sends nothing; any other
        text is sent as is, whitespace included, so the server decides. */
    method CreatePost(server: NodeStore, answer: Option<string>, parentId: Option<string>, freshId: Id, now: Instant)
      requires server.Valid() && server.toObjectId(freshId) == Some(freshId) && freshId !in Ids(server.nodes)
      modifies this, server
      ensures server.Valid() && content == old(content)
      ensures answer.None? || answer.value == "" ==> server.nodes == old(server.nodes) && posts == old(posts)
      ensures answer.Some? && JsText.Blank(answer.value) ==> server.nodes == old(server.nodes) && posts == old(posts)
      ensures answer.Some? && !JsText.Blank(answer.value) && ParentField(parentId).Absent? ==>
                var created := Node(freshId, answer.value, None, now, now);
                server.nodes == old(server.nodes) + [created] && posts == old(posts) + [created]
      ensures answer.Some? && !JsText.Blank(answer.value) && ParentField(parentId).Text? ==>
                if ParentStored(old(server.nodes), server.toObjectId, parentId.value) then
                  var created := Node(freshId, answer.value, server.toObjectId(parentId.value), now, now);
                  server.nodes == old(server.nodes) + [created] && posts == old(posts) + [created]
                else
                  server.nodes == old(server.nodes) && posts == old(posts)
    {
      if answer.None? || answer.value == "" {
        return;
      }
      var text := answer.value;
      var field := ParentField(parentId);
      assert RequestedParent(field) == if field.Text? then parentId else None;
      assert ParentObjectId(server.toObjectId, field) == if field.Text? then server.toObjectId(parentId.value) else None;
      var reply := server.Create(Text(text), field, freshId, now);
      assert reply.Created? <==> !JsText.Blank(text) && (field.Text? ==> ParentStored(old(server.nodes), server.toObjectId, parentId.value));
      if reply.Created? {
        posts := posts + [reply.node];
      }
    }

    /** The top-level post button: blank `content` sends nothing; otherwise a
        root with that content is always created, appended to `posts`, and
        the input cleared. */
    method SubmitPost(server: NodeStore, freshId: Id, now: Instant)
      requires server.Valid() && server.toObjectId(freshId) == Some(freshId) && freshId !in Ids(server.nodes)
      modifies this, server
      ensures server.Valid()
      ensures JsText.Blank(old(content)) ==>
                server.nodes == old(server.nodes) && posts == old(posts) && content == old(content)
      ensures !JsText.Blank(old(content)) ==>
                var created := Node(freshId, old(content), None, now, now);
                server.nodes == old(server.nodes) + [created] && posts == old(posts) + [created] && content == ""
    {
      JsText.TrimEmptyIffBlank(content);
      if |JsText.Trim(content)| == 0 {
        return;
      }
      assert !JsText.Blank(content);
      assert ContentAccepted(Text(content)) && RequestedParent(Absent) == None;
      assert ParentObjectId(server.toObjectId, Absent) == None;
      var reply := server.Create(Text(content), Absent, freshId, now);
      if reply.Created? {
        posts := posts + [reply.node];
        content := "";
      }
    }
  }
}
