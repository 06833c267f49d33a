# Threaded discussion board: a verified model

This project models the logic of a small threaded discussion board. A post
is a node with an id, its content, an optional parent id and two timestamps.
A reply is a node whose parent is another node. The model has five parts:

- **The node store and its HTTP handlers** (`src/routes/posts.ts`).
  - `PostRoutes.NodeStore` holds the collection as a sequence in insertion order.
  - `Create` is the POST handler. It checks the content, then that the parent id parses as an ObjectId, then that the parsed parent exists. It then appends exactly one node.
  - Ids are looked up after parsing, as `toObjectId` does. Any text that parses to a stored node's ObjectId names that node, an upper-case hex id included. Stored ids are the lower-case hex text that `toHexString` returns.
  - `ListRoots` and `GetWithChildren` are the two GET handlers, written as functions over the stored nodes.
  - `PostGraph` proves the store invariant: ids are unique and every parent is stored before its children. So the parent relation is acyclic, and every chain of parents ends at a root.
- **The tree builder** shared by both clients (`ThreadTree`). One pass copies every node into a record keyed by id (`NodeIndex`: JavaScript `Map`/`Record` insertion-order semantics). A second pass puts each node either in its parent's `children` list or in the root list. Built from the nodes of a store, the forest holds every stored node under its parent, and each is reached from exactly one root.
- **The web client's loader** (`SubtreeLoader`, `PostLoader`, `WebClient`).
  - `fetchSubtree` walks the tree depth-first using only the server's "direct comments" request.
  - `loadAll` lists the roots, walks below each one, and merges everything into a map keyed by id.
  - The server's answers are the store's own handlers. A request lost in transport is a parameter.
- **The write handlers of both clients** (`WebClient.WebApp`, `Client.ClientApp`). These are the blank-text guards, the create request, and appending the created node to the local list.
- **URL construction** in the web client's `fetchJSON` (`Api`).

The clients' state is modelled as classes whose fields the handlers assign. React's state setters become plain assignments.

## Model

| member | source | states |
|---|---|---|
| PostRoutes.NodeStore.Create | src/routes/posts.ts:8-40 | Checks run in a fixed order. Non-string or blank content gives 400 "content is required" before any parent check. A parent id that does not parse as an ObjectId gives 400 "invalid parentId". One whose parsed id names no stored node gives 404 "parent not found". Every rejection leaves the store as it was. Otherwise exactly one node is appended and returned with 201. That node has the fresh id, the content exactly as sent, the parsed parent id (none when absent or null) and `createdAt == updatedAt`. The store invariant is kept. |
| PostRoutes.ContentAccepted | src/routes/posts.ts:11 | content passes the check (a string whose `trim()` is non-empty) exactly when it is a string that is not all whitespace |
| PostRoutes.RequestedParent | src/routes/posts.ts:16-17 | undefined and null name no parent; a string names itself; any other value names its `String(...)` text |
| PostTypes.Find | src/routes/posts.ts:22 | `findOne` by id finds a node exactly when one with that id is stored, and then a stored node with that id |
| PostRoutes.AppendKeepsStore | src/routes/posts.ts:20-36 | appending a node with a fresh well-formed id, whose parent (if any) is already stored, keeps ids unique and parents before children |
| PostRoutes.SortByCreated | src/routes/posts.ts:47 | the result is in non-decreasing `createdAt` order and is a permutation of the input |
| PostRoutes.ListRoots | src/routes/posts.ts:43-50 | exactly the stored nodes with a null parent, each as often as stored, in non-decreasing `createdAt` order |
| PostRoutes.CommentsExact | src/routes/posts.ts:63-66 | the comments of `x` are exactly the stored nodes whose parent is `x`, each as often as stored, sorted by `createdAt` |
| PostRoutes.GetWithChildren | src/routes/posts.ts:53-72 | 400 exactly when the id does not parse as an ObjectId; 404 exactly when it parses but no node with the parsed id is stored (whether or not children would exist); otherwise the stored node with the parsed id and exactly its direct children, sorted, each with `parentId` equal to the parsed id |
| PostGraph.ChildAfterParent | src/routes/posts.ts:20-24 | in a well-formed store a child is stored after its parent |
| PostGraph.ParentPrecedes | src/routes/posts.ts:20-24 | the parent of a stored node is stored, and at an earlier position |
| PostGraph.ReachesEarlier | src/routes/posts.ts:20-24 | every ancestor is stored no later than its descendant |
| PostGraph.Acyclic | src/routes/posts.ts:20-24 | no node is an ancestor of its own parent: the parent relation has no cycle |
| PostGraph.RootOf | src/routes/posts.ts:20-24 | following parent links from any stored node ends at a stored root that is its ancestor |
| PostGraph.OneBranch | src/routes/posts.ts:20-24 | a node lies below at most one child of each of its ancestors |
| PostGraph.ReachesTrans | src/routes/posts.ts:20-24 | the ancestor relation is transitive |
| PostGraph.ChildOnPath | src/routes/posts.ts:20-24 | a proper descendant of `x` lies below some stored child of `x` |
| JsText.TrimStart | src/routes/posts.ts:11 | `trimStart` drops exactly the leading whitespace |
| JsText.TrimEnd | src/routes/posts.ts:11 | `trimEnd` drops exactly the trailing whitespace |
| JsText.TrimShape | src/routes/posts.ts:11 | what `trim` leaves is no longer than the input and starts and ends with a non-whitespace character |
| JsText.TrimEmptyIffBlank | src/routes/posts.ts:11 | `s.trim()` is empty if and only if every character of `s` is whitespace |
| NodeIndex.Put | web/src/App.tsx:49 | `map.set` keeps ids distinct and adds the key. The new value is present. Entries with other ids stay, and no other entry appears. |
| NodeIndex.PutPresent | web/src/App.tsx:49 | setting a present key keeps every key in its position |
| NodeIndex.Index | web/src/App.tsx:25 | the record built from `posts` has one entry per id of `posts`, and no other ids |
| NodeIndex.IndexValues | web/src/App.tsx:25 | every entry comes from the input, and for each id the last value given is the one kept |
| NodeIndex.IndexOrder | web/src/App.tsx:25-26 | entries appear in the order in which their ids first occur in the input |
| NodeIndex.IndexFromIndex | web/src/App.tsx:48-52 | setting `b` on the map built from `a` gives the map built from `a + b` |
| NodeIndex.SetEach | web/src/App.tsx:49 | the loop `for (const d of s) m.set(d.id, d)` computes the map of setting every element of `s` in order |
| NodeIndex.IndexOfDistinct | web/src/App.tsx:49 | a sequence with distinct ids indexes to itself |
| NodeIndex.IndexKeepsPrefix | web/src/App.tsx:49-52 | setting keys the map does not hold leaves its entries first, unchanged and in order |
| ThreadTree.CopyById | web/src/App.tsx:25 | the first pass builds exactly the record of `posts` |
| ThreadTree.Link | web/src/App.tsx:26-38 | after the second pass, the roots are the record's unattached values in record order. A node has a `children` list exactly when something is attached to it. Each list holds, in record order, the values attached to that node. |
| ThreadTree.BuildTree | web/src/App.tsx:22-40 | the builder yields exactly the declarative forest of its input (the second client's builder, src/client/App.tsx:23-41, is the same code) |
| ThreadTree.PlacedOnce | web/src/App.tsx:26-38 | Each record value goes exactly once either to the roots or to one `children` list. It goes into its parent's list exactly when it names a non-empty parent id present in the record as an own key, and into no other list. A node not in the record appears nowhere. |
| ThreadTree.OrphanPromoted | src/client/App.tsx:28-35 | a node naming a parent that is not in the input is shown as a root (parent ids that name `Object.prototype` members excepted, see Left out) |
| ThreadTree.RootsInInputOrder | web/src/App.tsx:25-36 | the root list keeps the order in which ids first occur in the input |
| ThreadTree.ChildrenInInputOrder | web/src/App.tsx:25-31 | every `children` list keeps the order in which ids first occur in the input |
| ThreadTree.AttachedIffNamesParent | web/src/App.tsx:28-29 | over the nodes of a store, a node goes under a parent exactly when it names one |
| ThreadTree.StoredPlacedUnderParent | web/src/App.tsx:26-38 | Built from the nodes of a store, in any order, the forest puts a node that names a parent in that parent's `children` list, once, and in no other list or the roots. A node naming none is in the roots once and in no `children` list. |
| ThreadTree.StoredReachable | web/src/App.tsx:22-40 | every stored node is reached from a root by following `children` lists |
| ThreadTree.DescentStep | web/src/App.tsx:26-38 | a descent from a root passes through stored nodes only: the first names no parent, and each later one names the one before it |
| ThreadTree.DescentUnique | web/src/App.tsx:22-40 | two descents that reach the same node are the same, so each stored node hangs below exactly one root |
| SubtreeLoader.ServerAnswers | src/routes/posts.ts:63-66 | the server's comments query lists exactly the stored children of a node, each once |
| SubtreeLoader.CommentAfter | src/routes/posts.ts:63-66 | a comment of `x` is a stored child of `x`, stored after it (the walk's termination measure) |
| SubtreeLoader.FetchSubtree | web/src/App.tsx:159-168 | The walk succeeds exactly when the request for `nodeId` succeeds and so does every request below the node that request is answered for. It then returns that node's pre-order subtree. For a stored id: exactly when every walk below it succeeds, returning its own subtree. |
| SubtreeLoader.CollectReplies | web/src/App.tsx:161-167 | the loop over the comments: it fails exactly when a walk below a comment fails, and otherwise returns each comment followed at once by its subtree |
| SubtreeLoader.IntactBelow | web/src/App.tsx:164 | when the walk below `x` succeeds, the walk below each of its comments succeeds |
| SubtreeLoader.AnsweredIntact | web/src/App.tsx:159-168 | when no request for a stored id fails, the walk below any stored id succeeds |
| SubtreeLoader.SubtreeSound | web/src/App.tsx:159-168 | everything the walk returns is a stored proper descendant of the node |
| SubtreeLoader.SubtreeComplete | web/src/App.tsx:159-168 | every stored proper descendant is returned by the walk |
| SubtreeLoader.SubtreeDistinct | web/src/App.tsx:159-168 | no id occurs twice in what the walk returns |
| SubtreeLoader.SubtreeExactlyDescendants | web/src/App.tsx:159-168 | the walk returns exactly the proper descendants of the node, each once |
| SubtreeLoader.RequestComments | web/src/App.tsx:160 | the comments request, as it reaches the route, succeeds exactly when it is not lost and the id parses to a stored node's id, and then yields that node's comments |
| SubtreeLoader.ServerServes | web/src/App.tsx:160 | against a well-formed store, the request is answered for the parsed id, which for a stored id is the id itself; it serves the comments query and fails for a stored id only when it is lost |
| PostLoader.LoadPosts | web/src/App.tsx:46-54 | The load succeeds exactly when the listing and every walk below a listed root succeed. It then yields the map of setting the roots and then every walk in order. |
| PostLoader.MergeWalks | web/src/App.tsx:48-53 | The loop over the roots fails exactly when some walk fails. Otherwise it yields the map of the roots followed by all their walks. |
| PostLoader.AnsweredRootsIntact | web/src/App.tsx:50-53 | when no request for a stored id fails, every walk of the load succeeds |
| PostLoader.ListingStored | src/routes/posts.ts:43-50 | every listed root is stored, and the listing has distinct ids |
| PostLoader.LoadedSound | web/src/App.tsx:48-54 | every node of a successful load is stored |
| PostLoader.LoadedComplete | web/src/App.tsx:48-54 | every stored node is in a successful load |
| PostLoader.LoadedExactlyStored | web/src/App.tsx:48-54 | a successful load has one entry per id and holds exactly the stored nodes |
| PostLoader.LoadedRootsFirst | web/src/App.tsx:49 | a successful load starts with the listed roots, in listed order |
| PostLoader.LoadedInFirstAppearanceOrder | web/src/App.tsx:48-54 | the entries of a successful load follow the first appearance of their ids in the roots and then the walks |
| PostLoader.ServerLoadSucceeds | web/src/App.tsx:47-54 | with no request lost, every walk of a load from a well-formed store succeeds |
| WebClient.LoadErrorText | web/src/App.tsx:56 | the message shown is never empty, and it is the error's own message when that is non-empty |
| WebClient.LoadFromServer | web/src/App.tsx:46-54 | The load from the store succeeds exactly when the roots request is not lost and every walk succeeds. It always succeeds when nothing is lost. The result is then exactly the merged load `PostLoader.Loaded`: the listed roots, then each walk in pre-order, an id kept where it first appears; so each stored node once, roots first as listed. |
| WebClient.WebApp.constructor | web/src/App.tsx:17-20 | no posts, empty input, not loading, no error |
| WebClient.WebApp.LoadAll | web/src/App.tsx:43-60 | The outcome is the load's result: on success `posts` is exactly the merged load `PostLoader.Loaded` of the store (each stored node once, roots first, then the walks' order) and `error` is cleared. On failure `posts` is kept and a non-empty message is shown. `loading` ends false either way, and the input is untouched. |
| WebClient.WebApp.Show | web/src/App.tsx:54-59 | the `setPosts`/`setError`/`finally` step: shows the fetched nodes or the failure message and ends loading |
| WebClient.ShownForest | web/src/App.tsx:22-40 | the tree built from what a successful load shows reaches every stored node from a root, by one descent only |
| WebClient.WebApp.CreateComment | web/src/App.tsx:64-72 | Blank text sends nothing and changes nothing. Otherwise, when the parent id parses to a stored node's id, the created child (recording the parsed id) is appended to both the store and `posts`. Otherwise the server's 400 or 404 leaves both unchanged. |
| WebClient.WebApp.SubmitPost | web/src/App.tsx:87-96 | Blank input sends nothing and changes nothing. Otherwise a root with that content is created, appended to both the store and `posts`, and the input is cleared. |
| Client.ParentField | src/client/App.tsx:50-51 | the request carries `parentId` exactly when a non-empty one is given |
| Client.ClientApp.constructor | src/client/App.tsx:20-21 | no posts, empty input |
| Client.ClientApp.InitialLoad | src/client/App.tsx:43-45 | `posts` becomes exactly the listed roots (sorted, each parentless stored node and nothing else), or stays as it was when the request fails |
| Client.ClientApp.CreatePost | src/client/App.tsx:47-58 | A cancelled or empty answer sends nothing. Whitespace-only text is sent, and the server's 400 changes nothing. Otherwise a root, or a child of the stored node the parent id parses to, is appended to both the store and `posts`. A parent id that does not parse or names no stored node changes nothing. |
| Client.ClientApp.SubmitPost | src/client/App.tsx:71-80 | Blank input sends nothing. Otherwise a root is created and appended, and the input is cleared. |
| Api.ApiBase | web/src/lib/api.ts:1 | the base is `/api` when `VITE_API_BASE` is unset or empty, and that value otherwise |
| Api.ResolveUrl | web/src/lib/api.ts:4 | A path starting with `http` is used as is. Any other URL starts with the base and a slash and ends with the path. It has exactly one separator: the path's own leading `/`, or one inserted. |
| Api.DefaultBaseDoublesPrefix | web/src/lib/api.ts:1-4 | with the default base, the paths the web client passes resolve to `/api/api/posts...`, which the posts router does not serve |
| Api.RelativePathsReachRouter | web/src/lib/api.ts:1-4 | with the default base, base-relative paths resolve to `/api/posts` and `/api/posts/<id>/comments`, the router's own paths |

## Left out

- React rendering is not modelled: `ThreadList`, JSX, and the open/close state and text of `InlineReply` are UI. `InlineReply` clears its text even when the request fails; that is not modelled either.
- `fetch` and network transport are not modelled. A lost request is a parameter: `listLost`, the set `lost`, or `lost` in the second client. Server answers are the store's own handlers.
- Asynchronous interleaving is not modelled. Each handler runs to completion before the next one starts, so neither a concurrent load nor a write during a load is covered.
- The error text of `fetchJSON` (the response body) is not modelled. A failed load carries an abstract reason. `console.error` in the second client is not modelled.
- A write lost in transport is not modelled: every write handler's request reaches the server. Neither is a response lost after the insert, when the store grew but `posts` did not.
- MongoDB, `src/lib/db.ts` and `src/types/post.ts` are not part of this model.
  - `toObjectId` is the parameter `toObjectId`: the hex text of the ObjectId a text parses to, or none. Which texts parse, and to what, is not modelled. The store invariant requires each stored id to parse to itself, as `toHexString` output does.
  - Ids and timestamps are abstract values (`toHexString` and `toISOString` are library conversions).
  - The store's fresh id and clock are the parameters `freshId` and `now`. Freshness is required of the caller, as the id generator guarantees it.
- PostRoutes.ListRoots and PostRoutes.CommentsExact state only non-decreasing `createdAt` order. MongoDB's order for equal timestamps is unspecified. The model's insertion sort fixes one tie order that the contracts do not promise.
- ThreadTree.BuildTree returns the root list and a map from a parent id to its `children` list. The object graph of shallow copies is not modelled. The input nodes are values in the model, so they cannot be modified.
- Key order of the `byId` record is modelled as insertion order. `Object.values` puts array-index keys first, but a 24-character ObjectId string is never one. Keys such as `__proto__` are not modelled.
- ThreadTree.Assemble: `byId[n.parentId]` on a plain object also finds names inherited from `Object.prototype` (`constructor`, `toString`, `__proto__`, ...). A node whose parent id is such a name and names no input node is attached to that inherited value, not promoted to a root, and a `__proto__` parent id makes every later node share one `children` array. The model looks up own keys only. A server id is 24 hex digits (src/types/post.ts:21-23) and is never such a name, so every tree built from loaded posts is as modelled.
- ThreadTree.PlacedOnce: states placement for own-key lookup, as ThreadTree.Assemble does; for a parent id that is an `Object.prototype` member name and no input id it promises a root where the source attaches the node to the inherited value.
- ThreadTree.OrphanPromoted: the same; it promises promotion for such parent ids too, which the source does not do.
- WebClient.WebApp.LoadAll models the web client's requests as they reach the posts router. The paths it passes do not reach it with the default base (see Findings), so as written every load fails.
- WebClient.LoadFromServer: the same; it answers the roots request and every comments request as the router would.
- SubtreeLoader.RequestComments: the same for `/api/posts/<id>/comments`.
- WebClient.WebApp.CreateComment: the same for its POST; as written it never creates a node.
- WebClient.WebApp.SubmitPost: the same for its POST.
- The second client (`Client`) requests `/api/posts` without a base, so its requests are not affected.
- `src/index.ts`, the dev-server proxy and the test suite are not part of this model.

## Findings

| source | as written | input that shows it | evidently intended | confidence | as-written member | corrected member |
|---|---|---|---|---|---|---|
| web/src/lib/api.ts:1-4 | The web client passes paths that already start with `/api` (web/src/App.tsx:47,66,89,160) to `fetchJSON`. That function prefixes `API_BASE`, whose default is `/api`. The posts router is mounted at `/api/posts` (src/index.ts:17). | `VITE_API_BASE` unset and path `/api/posts`: the URL is `/api/api/posts`. The same happens for `/api/posts/<id>/comments`. | paths relative to the base (`/posts`, `/posts/<id>/comments`), so each request reaches the router | medium, not executed | Api.DefaultBaseDoublesPrefix | Api.RelativePathsReachRouter |
