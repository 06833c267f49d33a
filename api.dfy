// How the web client turns a request path into a URL (web/src/lib/api.ts:1-4),
// and where the server answers it: the posts router is mounted at
// `/api/posts` (src/index.ts:17).

module Api {
  import opened PostTypes

  predicate StartsWith(s: string, prefix: string)
  {
    |prefix| <= |s| && s[..|prefix|] == prefix
  }

  predicate EndsWith(s: string, suffix: string)
  {
    |suffix| <= |s| && s[|s| - |suffix|..] == suffix
  }

  /** `API_BASE`: the configured `VITE_API_BASE`, unless it is unset or
      empty, in which case the dev-server prefix `/api`. */
  function ApiBase(env: Option<string>): (base: string)
    ensures env.None? || env.value == "" ==> base == "/api"
    ensures env.Some? && env.value != "" ==> base == env.value
  {
    if env.Some? && env.value != "" then env.value else "/api"
  }

  /** The URL `fetchJSON` requests for `path`. An absolute path is used as
      given; any other is the base and the path with exactly one slash
      between them: the path's own leading one, or one inserted when it has
      none. */
  function ResolveUrl(base: string, path: string): (url: string)
    ensures StartsWith(path, "http") ==> url == path
    ensures !StartsWith(path, "http") ==>
              && StartsWith(url, base + "/")
              && EndsWith(url, path)
              && |url| == |base| + |path| + (if StartsWith(path, "/") then 0 else 1)
  {
    if StartsWith(path, "http") then path
    else
      var url := base + (if StartsWith(path, "/") then "" else "/") + path;
      if StartsWith(path, "/") then
        assert url[..|base| + 1] == base + [path[0]];
        assert path[..1] == "/";
        assert url[|url| - |path|..] == path;
        url
      else
        assert url[..|base| + 1] == base + "/";
        assert url[|url| - |path|..] == path;
        url
  }

  /** Whether Express hands a request for `url` to the posts router: the
      mount path itself or a path below it. */
  predicate ReachesPostsRouter(url: string)
  {
    url == "/api/posts" || StartsWith(url, "/api/posts/")
  }

  /** The web client passes paths that already carry the `/api` prefix
      (web/src/App.tsx:47,66,89,160). With the default base the prefix is
      doubled, so neither the listing, the writes nor any comments request
      reaches the posts router. */
  lemma DefaultBaseDoublesPrefix(id: string)
    ensures ResolveUrl(ApiBase(None), "/api/posts") == "/api/api/posts"
    ensures !ReachesPostsRouter(ResolveUrl(ApiBase(None), "/api/posts"))
    ensures !ReachesPostsRouter(ResolveUrl(ApiBase(None), "/api/posts/" + id + "/comments"))
  {
    var u := ResolveUrl(ApiBase(None), "/api/posts");
    assert StartsWith("/api/posts", "/");
    assert !StartsWith("/api/posts", "http") by {
      assert "/api/posts"[0] != "http"[0];
    }
    assert u[5] == 'a';
    var path := "/api/posts/" + id + "/comments";
    assert path[0] == '/' && path[1] == 'a';
    assert !StartsWith(path, "http") by {
      assert path[..4][0] != "http"[0];
    }
    assert StartsWith(path, "/") by {
      assert path[..1] == "/";
    }
    var v := ResolveUrl(ApiBase(None), path);
    assert v == "/api" + path;
    assert v[5] == 'a';
    assert !StartsWith(v, "/api/posts/") by {
      assert v[..11][5] == 'a' != "/api/posts/"[5];
    }
  }

  /** Paths relative to the base, as the web client evidently means them:
      with the default base each resolves to a URL the posts router serves.
      The handlers in WebClient answer every request as the router would,
      which holds for these paths and not for the ones the source passes. */
  function PostsPath(): string
  {
    "/posts"
  }

  function CommentsPath(id: string): string
  {
    PostsPath() + "/" + id + "/comments"
  }

  lemma RelativePathsReachRouter(id: string)
    ensures ResolveUrl(ApiBase(None), PostsPath()) == "/api/posts"
    ensures ReachesPostsRouter(ResolveUrl(ApiBase(None), PostsPath()))
    ensures ReachesPostsRouter(ResolveUrl(ApiBase(None), CommentsPath(id)))
    ensures ResolveUrl(ApiBase(None), CommentsPath(id)) == "/api/posts/" + id + "/comments"
  {
    assert !StartsWith(PostsPath(), "http") by {
      assert PostsPath()[1] == 'p';
    }
    assert StartsWith(PostsPath(), "/") by {
      assert PostsPath()[..1] == "/";
    }
    var path := CommentsPath(id);
    assert path[0] == '/' && path[1] == 'p';
    assert !StartsWith(path, "http") by {
      assert path[..4][0] != "http"[0];
    }
    assert StartsWith(path, "/") by {
      assert path[..1] == "/";
    }
    var v := ResolveUrl(ApiBase(None), path);
    assert v == "/api" + path;
    assert v == "/api/posts/" + id + "/comments";
    assert v[..11] == "/api/posts/";
  }
}
