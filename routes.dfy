/** The four routers of server/routes and their mount points in
    server/server.js, as one declaration-ordered table. A request reaches the
    first route whose verb matches and whose pattern matches the path
    segment by segment (a `:param` matches any non-empty segment). Routes
    marked `auth` run the auth middleware first; the upload route then runs
    the single-file upload step. */
module Routes {
  import opened Seqs
  import opened Records
  import opened Http
  import opened AuthMiddleware
  import opened Upload
  import opened ErrorHandler

  datatype Verb = GET | POST | PUT | DELETE

  datatype Seg = Lit(text: string) | Param(name: string)

  datatype Handler =
    | RegisterUser | LoginUser | GetAllUsers
    | UploadPdf | GetMyPdfs | GetPdfDetails | UpdatePdf | DeletePdf
    | ShareWithEmail | GeneratePublicLink | ViewPublicPdf | GetExternalAccess | GetSharedWithMe
    | CreateComment | GetComments | UpdateComment | DeleteComment

  datatype Route = Route(verb: Verb, pattern: seq<Seg>, auth: bool, upload: bool, handler: Handler)

  /** server/routes/userRoutes.js */
  const UserRoutes: seq<Route> := [
    Route(POST, [Lit("register")], false, false, RegisterUser),
    Route(POST, [Lit("login")], false, false, LoginUser),
    Route(GET, [Lit("all")], true, false, GetAllUsers)
  ]

  /** server/routes/pdfRoutes.js */
  const PdfRoutes: seq<Route> := [
    Route(POST, [Lit("upload")], true, true, UploadPdf),
    Route(GET, [Lit("my-pdfs")], true, false, GetMyPdfs),
    Route(GET, [Param("id")], true, false, GetPdfDetails),
    Route(PUT, [Param("id")], true, false, UpdatePdf),
    Route(DELETE, [Param("id")], true, false, DeletePdf)
  ]

  /** server/routes/pdfSharingRoutes.js */
  const SharingRoutes: seq<Route> := [
    Route(POST, [Param("id"), Lit("share"), Lit("email")], true, false, ShareWithEmail),
    Route(POST, [Param("id"), Lit("share"), Lit("public")], true, false, GeneratePublicLink),
    Route(GET, [Param("id"), Lit("view")], false, false, ViewPublicPdf),
    Route(GET, [Param("id"), Lit("external-access")], true, false, GetExternalAccess),
    Route(GET, [Lit("shared-with-me")], true, false, GetSharedWithMe),
    Route(GET, [Lit("users")], true, false, GetAllUsers)
  ]

  /** server/routes/commentRoutes.js */
  const CommentRoutes: seq<Route> := [
    Route(POST, [Param("pdfId"), Lit("comments")], true, false, CreateComment),
    Route(GET, [Param("pdfId"), Lit("comments")], false, false, GetComments),
    Route(PUT, [Lit("comments"), Param("commentId")], true, false, UpdateComment),
    Route(DELETE, [Lit("comments"), Param("commentId")], true, false, DeleteComment)
  ]

  datatype Mount = Mount(prefix: seq<string>, routes: seq<Route>)

  /** The mount paths of server/server.js, as segments. */
  const UsersApi: seq<string> := ["api", "users"]
  const PdfsApi: seq<string> := ["api", "pdfs"]
  const SharingApi: seq<string> := ["api", "pdf-sharing"]
  const CommentsApi: seq<string> := ["api", "pdf"]

  /** The `app.use` calls, in order. */
  const Mounts: seq<Mount> := [
    Mount(UsersApi, UserRoutes),
    Mount(PdfsApi, PdfRoutes),
    Mount(SharingApi, SharingRoutes),
    Mount(CommentsApi, CommentRoutes)
  ]

  function Lits(prefix: seq<string>): (r: seq<Seg>)
    ensures |r| == |prefix| && forall i | 0 <= i < |prefix| :: r[i] == Lit(prefix[i])
  {
    seq(|prefix|, i requires 0 <= i < |prefix| => Lit(prefix[i]))
  }

  /** A router's routes with the mount prefix in front of each pattern. */
  function Mounted(m: Mount): (r: seq<Route>)
    ensures |r| == |m.routes|
    ensures forall k | 0 <= k < |r| :: r[k] == m.routes[k].(pattern := Lits(m.prefix) + m.routes[k].pattern)
  {
    seq(|m.routes|, k requires 0 <= k < |m.routes| => m.routes[k].(pattern := Lits(m.prefix) + m.routes[k].pattern))
  }

  /** The application's whole table, in matching order: the routers in
      mount order, each in declaration order. */
  function AppRoutes(): (r: seq<Route>)
    ensures |r| == 18
  {
    Mounted(Mounts[0]) + Mounted(Mounts[1]) + Mounted(Mounts[2]) + Mounted(Mounts[3])
  }

  predicate SegMatches(p: Seg, s: string) {
    match p
    case Lit(t) => s == t
    case Param(_) => s != ""
  }

  /** Each segment of the path matches the pattern's segment at its place. */
  predicate PatternMatches(pattern: seq<Seg>, path: seq<string>) {
    if pattern == [] then path == []
    else path != [] && SegMatches(pattern[0], path[0]) && PatternMatches(pattern[1..], path[1..])
  }

  function Matching(verb: Verb, path: seq<string>): Route -> bool {
    (rt: Route) => rt.verb == verb && PatternMatches(rt.pattern, path)
  }

  /** The position of the route a request reaches, if any. */
  function Resolve(verb: Verb, path: seq<string>): (r: Option<nat>)
    ensures r.Some? ==> r.value < |AppRoutes()| && Matching(verb, path)(AppRoutes()[r.value])
    ensures r.Some? ==> forall k | 0 <= k < r.value :: !Matching(verb, path)(AppRoutes()[k])
    ensures r.None? <==> forall k | 0 <= k < |AppRoutes()| :: !Matching(verb, path)(AppRoutes()[k])
  {
    IndexWhere(AppRoutes(), Matching(verb, path))
  }

  /** The handler a request reaches, if any. */
  function HandlerFor(verb: Verb, path: seq<string>): (r: Option<Handler>)
    ensures r.Some? <==> Resolve(verb, path).Some?
    ensures r.Some? ==> r.value == AppRoutes()[Resolve(verb, path).value].handler
  {
    match Resolve(verb, path)
    case None => None
    case Some(k) => Some(AppRoutes()[k].handler)
  }

  /** Where router `m`'s entries start in the whole table. */
  function Offset(m: nat): (r: nat)
    requires m < 4
    ensures r + |Mounts[m].routes| <= 18
  {
    [0, 3, 8, 14][m]
  }

  /** Entry `k` of the whole table, and the router entry it comes from. */
  lemma Entry(m: nat, j: nat)
    requires m < 4 && j < |Mounts[m].routes|
    ensures AppRoutes()[Offset(m) + j] == Mounts[m].routes[j].(pattern := Lits(Mounts[m].prefix) + Mounts[m].routes[j].pattern)
  {
  }

  /** A mounted pattern matches exactly the paths under the mount prefix
      whose remainder the router's own pattern matches. */
  lemma {:induction false} MountedMatch(prefix: seq<string>, pattern: seq<Seg>, path: seq<string>)
    ensures PatternMatches(Lits(prefix) + pattern, path) <==>
            |prefix| <= |path| && path[..|prefix|] == prefix && PatternMatches(pattern, path[|prefix|..])
  {
    if prefix == [] {
      assert Lits(prefix) + pattern == pattern;
      assert path[..0] == [] && path[0..] == path;
    } else if path == [] {
    } else {
      var full := Lits(prefix) + pattern;
      assert full[0] == Lit(prefix[0]);
      assert full[1..] == Lits(prefix[1..]) + pattern;
      MountedMatch(prefix[1..], pattern, path[1..]);
      if |prefix| <= |path| {
        assert path[1..][..|prefix| - 1] == path[1..|prefix|];
        assert path[1..][|prefix| - 1..] == path[|prefix|..];
        assert path[..|prefix|] == [path[0]] + path[1..|prefix|];
        assert prefix == [prefix[0]] + prefix[1..];
      }
    }
  }

  /** The four mount prefixes are distinct. */
  lemma PrefixesDistinct(m: nat, n: nat)
    requires m < 4 && n < 4 && Mounts[m].prefix == Mounts[n].prefix
    ensures m == n
  {
    assert |Mounts[m].prefix[1]| == |Mounts[n].prefix[1]|;
  }

  /** Entry `j` of router `n`, mounted, matches a path under mount `m` only
      when `n` is `m`. */
  lemma MatchesMountedEntry(verb: Verb, m: nat, rest: seq<string>, n: nat, j: nat)
    requires m < 4 && n < 4 && j < |Mounts[n].routes|
    ensures Matching(verb, Mounts[m].prefix + rest)(AppRoutes()[Offset(n) + j]) <==>
            n == m && Matching(verb, rest)(Mounts[m].routes[j])
  {
    var path := Mounts[m].prefix + rest;
    Entry(n, j);
    MountedMatch(Mounts[n].prefix, Mounts[n].routes[j].pattern, path);
    assert path[..2] == Mounts[m].prefix && path[2..] == rest;
    if path[..2] == Mounts[n].prefix {
      PrefixesDistinct(m, n);
    }
  }

  /** A path under mount `m` can only match entries of router `m`. */
  lemma MatchesOnlyOwnMount(verb: Verb, m: nat, rest: seq<string>, k: nat)
    requires m < 4 && k < 18
    ensures Matching(verb, Mounts[m].prefix + rest)(AppRoutes()[k]) <==>
            Offset(m) <= k < Offset(m) + |Mounts[m].routes| && Matching(verb, rest)(Mounts[m].routes[k - Offset(m)])
  {
    var n := if k < 3 then 0 else if k < 8 then 1 else if k < 14 then 2 else 3;
    MatchesMountedEntry(verb, m, rest, n, k - Offset(n));
  }

  /** The handler router `routes` reaches for the remainder `rest`. */
  function RouterHandler(routes: seq<Route>, verb: Verb, rest: seq<string>): Option<Handler> {
    match IndexWhere(routes, Matching(verb, rest))
    case None => None
    case Some(j) => Some(routes[j].handler)
  }

  /** Under a mount prefix, the whole table behaves like that router alone. */
  lemma HandlerUnderMount(verb: Verb, m: nat, rest: seq<string>)
    requires m < 4
    ensures HandlerFor(verb, Mounts[m].prefix + rest) == RouterHandler(Mounts[m].routes, verb, rest)
  {
    var routes := Mounts[m].routes;
    var r := IndexWhere(routes, Matching(verb, rest));
    if r.None? {
      NoneUnderMount(verb, m, rest);
    } else {
      SomeUnderMount(verb, m, rest, r.value);
    }
  }

  lemma NoneUnderMount(verb: Verb, m: nat, rest: seq<string>)
    requires m < 4 && IndexWhere(Mounts[m].routes, Matching(verb, rest)).None?
    ensures Resolve(verb, Mounts[m].prefix + rest).None?
  {
    forall k | 0 <= k < 18 ensures !Matching(verb, Mounts[m].prefix + rest)(AppRoutes()[k]) {
      MatchesOnlyOwnMount(verb, m, rest, k);
    }
  }

  lemma SomeUnderMount(verb: Verb, m: nat, rest: seq<string>, j: nat)
    requires m < 4 && IndexWhere(Mounts[m].routes, Matching(verb, rest)) == Some(j)
    ensures Resolve(verb, Mounts[m].prefix + rest) == Some(Offset(m) + j)
    ensures AppRoutes()[Offset(m) + j].handler == Mounts[m].routes[j].handler
  {
    var path := Mounts[m].prefix + rest;
    var k := Offset(m) + j;
    MatchesOnlyOwnMount(verb, m, rest, k);
    forall i | 0 <= i < k ensures !Matching(verb, path)(AppRoutes()[i]) {
      MatchesOnlyOwnMount(verb, m, rest, i);
    }
    ResolveAt(verb, path, k);
    Entry(m, j);
  }

  lemma ResolveAt(verb: Verb, path: seq<string>, k: nat)
    requires k < |AppRoutes()| && Matching(verb, path)(AppRoutes()[k])
    requires forall j | 0 <= j < k :: !Matching(verb, path)(AppRoutes()[j])
    ensures Resolve(verb, path) == Some(k)
  {
  }

  lemma MatchOne(p: Seg, a: string)
    ensures PatternMatches([p], [a]) <==> SegMatches(p, a)
  {
    assert [p][1..] == [] && [a][1..] == [];
  }

  lemma MatchTwo(p: Seg, q: Seg, a: string, b: string)
    ensures PatternMatches([p, q], [a, b]) <==> SegMatches(p, a) && SegMatches(q, b)
  {
    assert [p, q][1..] == [q] && [a, b][1..] == [b];
    MatchOne(q, b);
  }

  lemma MatchThree(p: Seg, q: Seg, t: Seg, a: string, b: string, c: string)
    ensures PatternMatches([p, q, t], [a, b, c]) <==> SegMatches(p, a) && SegMatches(q, b) && SegMatches(t, c)
  {
    assert [p, q, t][1..] == [q, t] && [a, b, c][1..] == [b, c];
    MatchTwo(q, t, b, c);
  }

  /** A pattern only matches paths of its own length. */
  lemma {:induction false} MatchLength(pattern: seq<Seg>, path: seq<string>)
    ensures PatternMatches(pattern, path) ==> |pattern| == |path|
  {
    if pattern != [] && path != [] {
      MatchLength(pattern[1..], path[1..]);
    }
  }

  /** The first entry of a router that matches gives its handler. */
  lemma RouterAt(routes: seq<Route>, verb: Verb, rest: seq<string>, j: nat)
    requires j < |routes| && Matching(verb, rest)(routes[j])
    requires forall i | 0 <= i < j :: !Matching(verb, rest)(routes[i])
    ensures RouterHandler(routes, verb, rest) == Some(routes[j].handler)
  {
    IndexWhereAt(routes, Matching(verb, rest), j);
  }

  // ---- inside each router ----

  lemma UserRouterRegister()
    ensures RouterHandler(UserRoutes, POST, ["register"]) == Some(RegisterUser)
  {
    MatchOne(Lit("register"), "register");
    RouterAt(UserRoutes, POST, ["register"], 0);
  }

  lemma UserRouterLogin()
    ensures RouterHandler(UserRoutes, POST, ["login"]) == Some(LoginUser)
  {
    MatchOne(Lit("register"), "login");
    MatchOne(Lit("login"), "login");
    RouterAt(UserRoutes, POST, ["login"], 1);
  }

  lemma UserRouterAll()
    ensures RouterHandler(UserRoutes, GET, ["all"]) == Some(GetAllUsers)
  {
    MatchOne(Lit("all"), "all");
    RouterAt(UserRoutes, GET, ["all"], 2);
  }

  lemma PdfRouterUpload()
    ensures RouterHandler(PdfRoutes, POST, ["upload"]) == Some(UploadPdf)
  {
    MatchOne(Lit("upload"), "upload");
    RouterAt(PdfRoutes, POST, ["upload"], 0);
  }

  lemma PdfRouterMine()
    ensures RouterHandler(PdfRoutes, GET, ["my-pdfs"]) == Some(GetMyPdfs)
  {
    MatchOne(Lit("my-pdfs"), "my-pdfs");
    RouterAt(PdfRoutes, GET, ["my-pdfs"], 1);
  }

  lemma PdfRouterId(verb: Verb, id: string)
    requires id != "" && (verb == GET ==> id != "my-pdfs") && verb != POST
    ensures RouterHandler(PdfRoutes, verb, [id]) ==
            Some(match verb case GET => GetPdfDetails case PUT => UpdatePdf case _ => DeletePdf)
  {
    MatchOne(Lit("my-pdfs"), id);
    MatchOne(Param("id"), id);
    var j := match verb case GET => 2 case PUT => 3 case _ => 4;
    RouterAt(PdfRoutes, verb, [id], j);
  }

  lemma SharingRouterShare(id: string, how: string)
    requires id != "" && (how == "email" || how == "public")
    ensures RouterHandler(SharingRoutes, POST, [id, "share", how]) ==
            Some(if how == "email" then ShareWithEmail else GeneratePublicLink)
  {
    MatchThree(Param("id"), Lit("share"), Lit("email"), id, "share", how);
    MatchThree(Param("id"), Lit("share"), Lit("public"), id, "share", how);
    RouterAt(SharingRoutes, POST, [id, "share", how], if how == "email" then 0 else 1);
  }

  lemma SharingRouterView(id: string)
    requires id != ""
    ensures RouterHandler(SharingRoutes, GET, [id, "view"]) == Some(ViewPublicPdf)
  {
    MatchTwo(Param("id"), Lit("view"), id, "view");
    RouterAt(SharingRoutes, GET, [id, "view"], 2);
  }

  lemma SharingRouterExternal(id: string)
    requires id != ""
    ensures RouterHandler(SharingRoutes, GET, [id, "external-access"]) == Some(GetExternalAccess)
  {
    MatchTwo(Param("id"), Lit("view"), id, "external-access");
    MatchTwo(Param("id"), Lit("external-access"), id, "external-access");
    RouterAt(SharingRoutes, GET, [id, "external-access"], 3);
  }

  lemma SharingRouterSharedWithMe()
    ensures RouterHandler(SharingRoutes, GET, ["shared-with-me"]) == Some(GetSharedWithMe)
  {
    MatchLength(SharingRoutes[2].pattern, ["shared-with-me"]);
    MatchLength(SharingRoutes[3].pattern, ["shared-with-me"]);
    MatchOne(Lit("shared-with-me"), "shared-with-me");
    RouterAt(SharingRoutes, GET, ["shared-with-me"], 4);
  }

  lemma SharingRouterUsers()
    ensures RouterHandler(SharingRoutes, GET, ["users"]) == Some(GetAllUsers)
  {
    MatchLength(SharingRoutes[2].pattern, ["users"]);
    MatchLength(SharingRoutes[3].pattern, ["users"]);
    MatchOne(Lit("shared-with-me"), "users");
    MatchOne(Lit("users"), "users");
    RouterAt(SharingRoutes, GET, ["users"], 5);
  }

  lemma CommentRouterOnPdf(verb: Verb, pdfId: string)
    requires pdfId != "" && (verb == POST || verb == GET)
    ensures RouterHandler(CommentRoutes, verb, [pdfId, "comments"]) ==
            Some(if verb == POST then CreateComment else GetComments)
  {
    MatchTwo(Param("pdfId"), Lit("comments"), pdfId, "comments");
    RouterAt(CommentRoutes, verb, [pdfId, "comments"], if verb == POST then 0 else 1);
  }

  lemma CommentRouterById(verb: Verb, commentId: string)
    requires commentId != "" && (verb == PUT || verb == DELETE)
    ensures RouterHandler(CommentRoutes, verb, ["comments", commentId]) ==
            Some(if verb == PUT then UpdateComment else DeleteComment)
  {
    MatchTwo(Lit("comments"), Param("commentId"), "comments", commentId);
    RouterAt(CommentRoutes, verb, ["comments", commentId], if verb == PUT then 2 else 3);
  }

  // ---- the application's table ----

  /** POST /api/users/register and POST /api/users/login. */
  lemma RegisterAndLoginRoutes()
    ensures HandlerFor(POST, UsersApi + ["register"]) == Some(RegisterUser)
    ensures HandlerFor(POST, UsersApi + ["login"]) == Some(LoginUser)
  {
    UserRouterRegister();
    HandlerUnderMount(POST, 0, ["register"]);
    UserRouterLogin();
    HandlerUnderMount(POST, 0, ["login"]);
  }

  /** POST /api/pdfs/upload. */
  lemma UploadRoute()
    ensures HandlerFor(POST, PdfsApi + ["upload"]) == Some(UploadPdf)
  {
    PdfRouterUpload();
    HandlerUnderMount(POST, 1, ["upload"]);
  }

  /** GET /api/pdfs/my-pdfs is declared before GET /api/pdfs/:id and wins. */
  lemma MyPdfsBeforeId()
    ensures HandlerFor(GET, PdfsApi + ["my-pdfs"]) == Some(GetMyPdfs)
  {
    PdfRouterMine();
    HandlerUnderMount(GET, 1, ["my-pdfs"]);
  }

  /** Any other id reaches getPdfDetails; PUT and DELETE on an id reach
      updatePdf and deletePdf. */
  lemma PdfIdRoute(verb: Verb, id: string)
    requires id != "" && (verb == GET ==> id != "my-pdfs") && verb != POST
    ensures HandlerFor(verb, PdfsApi + [id]) ==
            Some(match verb case GET => GetPdfDetails case PUT => UpdatePdf case _ => DeletePdf)
  {
    PdfRouterId(verb, id);
    HandlerUnderMount(verb, 1, [id]);
  }

  /** The two sharing actions, for any id. */
  lemma ShareEmailRoute(id: string)
    requires id != ""
    ensures HandlerFor(POST, SharingApi + [id, "share", "email"]) == Some(ShareWithEmail)
  {
    SharingRouterShare(id, "email");
    HandlerUnderMount(POST, 2, [id, "share", "email"]);
  }

  lemma SharePublicRoute(id: string)
    requires id != ""
    ensures HandlerFor(POST, SharingApi + [id, "share", "public"]) == Some(GeneratePublicLink)
  {
    SharingRouterShare(id, "public");
    HandlerUnderMount(POST, 2, [id, "share", "public"]);
  }

  /** The anonymous public view. */
  lemma PublicViewRoute(id: string)
    requires id != ""
    ensures HandlerFor(GET, SharingApi + [id, "view"]) == Some(ViewPublicPdf)
  {
    SharingRouterView(id);
    HandlerUnderMount(GET, 2, [id, "view"]);
  }

  /** The owner's external-access list. */
  lemma ExternalAccessRoute(id: string)
    requires id != ""
    ensures HandlerFor(GET, SharingApi + [id, "external-access"]) == Some(GetExternalAccess)
  {
    SharingRouterExternal(id);
    HandlerUnderMount(GET, 2, [id, "external-access"]);
  }

  /** The one-segment sharing paths are not taken by the two-segment
      `/:id/...` patterns declared before them. */
  lemma SharedWithMeRoute()
    ensures HandlerFor(GET, SharingApi + ["shared-with-me"]) == Some(GetSharedWithMe)
  {
    SharingRouterSharedWithMe();
    HandlerUnderMount(GET, 2, ["shared-with-me"]);
  }

  lemma SharingUsersRoute()
    ensures HandlerFor(GET, SharingApi + ["users"]) == Some(GetAllUsers)
  {
    SharingRouterUsers();
    HandlerUnderMount(GET, 2, ["users"]);
  }

  /** /api/users/all and /api/pdf-sharing/users run the same handler. */
  lemma UsersListTwice()
    ensures HandlerFor(GET, UsersApi + ["all"]) == HandlerFor(GET, SharingApi + ["users"]) == Some(GetAllUsers)
  {
    UserRouterAll();
    HandlerUnderMount(GET, 0, ["all"]);
    SharingUsersRoute();
  }

  /** Creating and listing comments on a pdf. */
  lemma CommentOnPdfRoutes(pdfId: string)
    requires pdfId != ""
    ensures HandlerFor(POST, CommentsApi + [pdfId, "comments"]) == Some(CreateComment)
    ensures HandlerFor(GET, CommentsApi + [pdfId, "comments"]) == Some(GetComments)
  {
    CommentRouterOnPdf(POST, pdfId);
    HandlerUnderMount(POST, 3, [pdfId, "comments"]);
    CommentRouterOnPdf(GET, pdfId);
    HandlerUnderMount(GET, 3, [pdfId, "comments"]);
  }

  /** Editing and deleting a comment. */
  lemma CommentByIdRoutes(commentId: string)
    requires commentId != ""
    ensures HandlerFor(PUT, CommentsApi + ["comments", commentId]) == Some(UpdateComment)
    ensures HandlerFor(DELETE, CommentsApi + ["comments", commentId]) == Some(DeleteComment)
  {
    CommentRouterById(PUT, commentId);
    HandlerUnderMount(PUT, 3, ["comments", commentId]);
    CommentRouterById(DELETE, commentId);
    HandlerUnderMount(DELETE, 3, ["comments", commentId]);
  }

  /** The handlers served without the auth middleware. */
  predicate Anonymous(h: Handler) {
    h == ViewPublicPdf || h == GetComments || h == RegisterUser || h == LoginUser
  }

  /** The flags of one router's own entries. */
  predicate FlagsAgree(rt: Route) {
    && (!rt.auth <==> Anonymous(rt.handler))
    && (rt.upload <==> rt.handler == UploadPdf)
    && (rt.upload ==> rt.auth)
  }

  lemma RouterFlags(m: nat)
    requires m < 4
    ensures forall j | 0 <= j < |Mounts[m].routes| :: FlagsAgree(Mounts[m].routes[j])
  {
  }

  /** Exactly four routes skip auth: the public view, the comment list,
      register and login. Only the upload route runs the upload step, and
      it runs auth first. */
  lemma RouteFlags()
    ensures forall k | 0 <= k < |AppRoutes()| :: !AppRoutes()[k].auth <==> Anonymous(AppRoutes()[k].handler)
    ensures forall k | 0 <= k < |AppRoutes()| :: AppRoutes()[k].upload <==> AppRoutes()[k].handler == UploadPdf
    ensures forall k | 0 <= k < |AppRoutes()| :: AppRoutes()[k].upload ==> AppRoutes()[k].auth
  {
    forall k | 0 <= k < 18 ensures FlagsAgree(AppRoutes()[k]) {
      var n := if k < 3 then 0 else if k < 8 then 1 else if k < 14 then 2 else 3;
      Entry(n, k - Offset(n));
      RouterFlags(n);
    }
  }

  // ---- dispatch: route, then auth, then the handler ----

  datatype Dispatched = NoRoute | Answered(status: int, message: string) | Run(handler: Handler, caller: Option<User>)

  /** A request's fate before its handler: no route (Express's 404), a
      refusal by the auth middleware, or the handler with the caller that
      auth attached (none on an anonymous route). */
  function Dispatch(verb: Verb, path: seq<string>, header: Option<string>, users: seq<User>,
                    verify: string -> Verification): (r: Dispatched)
    ensures Resolve(verb, path).None? <==> r == NoRoute
    ensures r.Run? ==> Some(r.handler) == HandlerFor(verb, path)
    ensures Resolve(verb, path).Some? && !AppRoutes()[Resolve(verb, path).value].auth ==>
              r == Run(AppRoutes()[Resolve(verb, path).value].handler, None)
    ensures Resolve(verb, path).Some? && AppRoutes()[Resolve(verb, path).value].auth ==>
              match Authenticate(header, users, verify)
              case Denied(status, message) => r == Answered(status, message)
              case Authenticated(u) => r == Run(AppRoutes()[Resolve(verb, path).value].handler, Some(u))
  {
    match Resolve(verb, path)
    case None => NoRoute
    case Some(k) =>
      if !AppRoutes()[k].auth then Run(AppRoutes()[k].handler, None)
      else match Authenticate(header, users, verify)
        case Denied(status, message) => Answered(status, message)
        case Authenticated(u) => Run(AppRoutes()[k].handler, Some(u))
  }

  /** Without an Authorization header only the four anonymous handlers run. */
  lemma AnonymousReach(verb: Verb, path: seq<string>, users: seq<User>, verify: string -> Verification)
    ensures Dispatch(verb, path, None, users, verify).Run? ==> Anonymous(Dispatch(verb, path, None, users, verify).handler)
  {
    RouteFlags();
  }

  /** A public-link viewer who posts a comment is turned away by auth
      before createComment runs. */
  lemma AnonymousCommentRefused(pdfId: string, users: seq<User>, verify: string -> Verification)
    requires pdfId != ""
    ensures Dispatch(POST, CommentsApi + [pdfId, "comments"], None, users, verify) == Answered(401, NoToken)
  {
    CommentOnPdfRoutes(pdfId);
    RouteFlags();
  }

  /** The field name of `upload.single("pdf")`. */
  const UploadField := "pdf"

  /** The upload step of POST /api/pdfs/upload as written: its errors go to
      the error middleware as written, so an oversize pdf is told the limit
      is 50MB and a file of the wrong type gets a 500 carrying the filter's
      message; an accepted request carries the stored file, if any, on to
      uploadPdf. */
  function UploadStep(part: Option<IncomingFile>, now: nat): (r: Reply<Option<StoredFile>>)
    ensures r.Err? ==> SingleUpload(UploadField, part, now).Rejected?
    ensures r.Ok? ==> SingleUpload(UploadField, part, now) == Accepted(r.value)
    ensures part.Some? && part.value.fieldName == UploadField && part.value.mimetype != PdfMimeType ==>
              r == Err(500, NotPdfMessage)
    ensures part.Some? && part.value.fieldName == UploadField && part.value.mimetype == PdfMimeType
            && part.value.size > MaxFileSize ==>
              r == Err(400, "File too large. Maximum size is 50MB.")
    ensures r.Err? && r.status != 400 ==>
              part.Some? && part.value.fieldName == UploadField && part.value.mimetype != PdfMimeType
  {
    match SingleUpload(UploadField, part, now)
    case Rejected(e) =>
      Err(HandleErrorAsWritten(e).status, HandleErrorAsWritten(e).message)
    case Accepted(f) => Ok(200, f)
  }

  /** The upload step with the corrected error middleware: any rejection is
      a 400, and a file of the wrong type is told so. */
  function UploadStepCorrected(part: Option<IncomingFile>, now: nat): (r: Reply<Option<StoredFile>>)
    ensures r.Err? ==> r.status == 400 && SingleUpload(UploadField, part, now).Rejected?
    ensures r.Ok? ==> SingleUpload(UploadField, part, now) == Accepted(r.value)
    ensures part.Some? && part.value.fieldName == UploadField && part.value.mimetype != PdfMimeType ==>
              r == Err(400, "Only PDF files are allowed")
    ensures part.Some? && part.value.fieldName == UploadField && part.value.mimetype == PdfMimeType
            && part.value.size > MaxFileSize ==>
              r == Err(400, "File too large. Maximum size is " + MaxFileSizeText + ".")
  {
    match SingleUpload(UploadField, part, now)
    case Rejected(e) =>
      UploadRejectionsAreClientErrors(UploadField, part, now);
      Err(HandleError(e).status, HandleError(e).message)
    case Accepted(f) => Ok(200, f)
  }
}
