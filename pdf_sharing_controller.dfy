/** The read-only handlers of server/controllers/pdfSharingController.js:
    the anonymous public view, the grantee's view, the shared-with-me list
    and the share-candidate list; and the public link that generatePublicLink
    composes. The two handlers that change a pdf (shareWithEmail,
    generatePublicLink) are methods of Database.Database. */
module PdfSharingController {
  import opened Seqs
  import opened Text
  import opened Sorting
  import opened Records
  import opened Http

  /** The body of the two view endpoints: no grants, no owner, no token. */
  datatype PdfView = PdfView(title: string, fileId: string, fileUrl: string, createdAt: nat)

  function ViewOf(p: Pdf): PdfView {
    PdfView(p.title, p.fileId, p.fileUrl, p.createdAt)
  }

  /** The projection cannot reveal who owns the pdf, who it is shared with,
      or any token: changing those leaves the view as it was. */
  lemma ViewHidesSharing(p: Pdf, owner: Id, grants: seq<Grant>, token: Option<string>)
    ensures ViewOf(p.(uploadedBy := owner, sharedWith := grants, publicAccessToken := token)) == ViewOf(p)
  {
  }

  // ---- generatePublicLink's link ----

  const DefaultFrontendUrl := "https://pdf-management-system.vercel.app"

  /** `process.env.FRONTEND_URL || default`; "" stands for an unset variable. */
  function FrontendUrl(env: string): (r: string)
    ensures r != "" && (env != "" ==> r == env)
  {
    if env != "" then env else DefaultFrontendUrl
  }

  /** `${frontendUrl}/shared/${pdf._id}?token=${publicToken}` */
  function PublicLink(env: string, id: Id, token: string): (r: string)
    ensures StartsWith(r, FrontendUrl(env))
  {
    FrontendUrl(env) + "/shared/" + id + "?token=" + token
  }

  /** What a reader of the link takes for the token: the text after its last `=`. */
  function LinkToken(link: string): string {
    match LastIndexOf(link, '=')
    case None => ""
    case Some(k) => link[k + 1..]
  }

  /** A token without `=` (a v4 UUID is hex digits and dashes) is read back
      from the link exactly. */
  lemma LinkTokenRoundTrip(env: string, id: Id, token: string)
    requires '=' !in token
    ensures LinkToken(PublicLink(env, id, token)) == token
  {
    var link := PublicLink(env, id, token);
    var k := |link| - |token| - 1;
    assert link[k] == '=';
    assert link[k + 1..] == token;
  }

  /** What a reader of the link under this frontend takes for the pdf id:
      the text after `/shared/` up to the first `?`. */
  function LinkPdfId(link: string, env: string): string {
    IdAfter(link, FrontendUrl(env) + "/shared/")
  }

  /** The text after `prefix` up to the first `?`, or "" when the link does
      not start with `prefix`. */
  function IdAfter(link: string, prefix: string): string {
    if StartsWith(link, prefix) then
      var rest := link[|prefix|..];
      match IndexOf(rest, '?')
      case None => rest
      case Some(k) => rest[..k]
    else ""
  }

  /** An id without `?` (an ObjectId is hex digits) is read back from the
      link exactly. */
  lemma LinkPdfIdRoundTrip(env: string, id: Id, token: string)
    requires '?' !in id
    ensures LinkPdfId(PublicLink(env, id, token), env) == id
  {
    var prefix := FrontendUrl(env) + "/shared/";
    assert PublicLink(env, id, token) == prefix + id + ['?'] + ("token=" + token);
    IdAfterRoundTrip(prefix, id, "token=" + token);
  }

  lemma IdAfterRoundTrip(prefix: string, id: string, w: string)
    requires '?' !in id
    ensures IdAfter(prefix + id + ['?'] + w, prefix) == id
  {
    var link := prefix + id + ['?'] + w;
    assert link[..|prefix|] == prefix;
    assert link[|prefix|..] == id + ['?'] + w;
    FirstMarkAfter(id, w);
  }

  /** The first `?` of `u + "?" + w` is the one after `u` when `u` has none. */
  lemma FirstMarkAfter(u: string, w: string)
    requires '?' !in u
    ensures IndexOf(u + ['?'] + w, '?') == Some(|u|)
  {
    var t := u + ['?'] + w;
    assert t[|u|] == '?';
    assert t[..|u|] == u;
  }

  // ---- shareWithEmail's checks and change ----

  /** `User.findById(userId)` found a user whose email is the supplied one. */
  predicate UserMatches(users: seq<User>, userId: Id, email: string) {
    FindUser(users, userId).Some? && users[FindUser(users, userId).value].email == email
  }

  /** shareWithEmail's checks, in source order: pdf (404), ownership (403),
      both body fields (400), the user and their email (404), an existing
      grant (400). On success, the positions of the pdf and of the user. */
  function ShareCheck(pdfs: seq<Pdf>, users: seq<User>, caller: Id, pdfId: Id, userId: Id, email: string): (r: Reply<(nat, nat)>)
    ensures var o := OwnedPdf(pdfs, caller, pdfId);
            o.Err? ==> r == Err(o.status, o.message)
    ensures var o := OwnedPdf(pdfs, caller, pdfId);
            o.Ok? && (userId == "" || email == "") ==> r == Err(400, "UserId and email are required")
    ensures var o := OwnedPdf(pdfs, caller, pdfId);
            o.Ok? && userId != "" && email != "" && !UserMatches(users, userId, email) ==> r == Err(404, "User not found")
    ensures var o := OwnedPdf(pdfs, caller, pdfId);
            o.Ok? && userId != "" && email != "" && UserMatches(users, userId, email) && HasGrant(pdfs[o.value].sharedWith, userId)
            ==> r == Err(400, "User already has access to this PDF")
    ensures var o := OwnedPdf(pdfs, caller, pdfId);
            r.Ok? <==> o.Ok? && userId != "" && email != "" && UserMatches(users, userId, email) && !HasGrant(pdfs[o.value].sharedWith, userId)
    ensures r.Ok? ==> r.value.0 == OwnedPdf(pdfs, caller, pdfId).value && r.value.1 == FindUser(users, userId).value
  {
    match OwnedPdf(pdfs, caller, pdfId)
    case Err(status, message) => Err(status, message)
    case Ok(_, i) =>
      if userId == "" || email == "" then Err(400, "UserId and email are required")
      else if !UserMatches(users, userId, email) then Err(404, "User not found")
      else
        FindGrantIffHasGrant(pdfs[i].sharedWith, userId);
        if FindGrant(pdfs[i].sharedWith, userId).Some? then Err(400, "User already has access to this PDF")
        else Ok(200, (i, FindUser(users, userId).value))
  }

  /** The pdf after `sharedWith.push(...)` and `save()`: one entry at the end
      for `u`, with a fresh token and the current time; `updatedAt` moves. */
  function Granted(p: Pdf, u: User, token: string, now: nat): (q: Pdf)
    ensures |q.sharedWith| == |p.sharedWith| + 1 && q.sharedWith[..|p.sharedWith|] == p.sharedWith
    ensures q.sharedWith[|p.sharedWith|] == Grant(Some(u.id), u.email, token, now)
    ensures q.(sharedWith := p.sharedWith, updatedAt := p.updatedAt) == p
  {
    p.(sharedWith := p.sharedWith + [Grant(Some(u.id), u.email, token, now)], updatedAt := now)
  }

  /** `${user.name || user.email}` */
  function DisplayName(u: User): (r: string)
    ensures r == u.name || (u.name == "" && r == u.email)
  {
    if u.name != "" then u.name else u.email
  }

  /** A grant keeps grantees unique, and from then on the user passes
      getExternalAccess and finds the pdf in their shared-with-me list. */
  lemma ShareThenAccess(pdfs: seq<Pdf>, users: seq<User>, caller: Id, pdfId: Id, userId: Id, email: string, token: string, now: nat)
    requires ShareCheck(pdfs, users, caller, pdfId, userId, email).Ok?
    requires GranteesUnique(pdfs[ShareCheck(pdfs, users, caller, pdfId, userId, email).value.0].sharedWith)
    ensures var c := ShareCheck(pdfs, users, caller, pdfId, userId, email);
            var q := pdfs[c.value.0 := Granted(pdfs[c.value.0], users[c.value.1], token, now)];
            && GranteesUnique(q[c.value.0].sharedWith)
            && GetExternalAccess(q, userId, pdfId).Ok?
            && HasGrant(q[c.value.0].sharedWith, userId)
            && SharedItemOf(q[c.value.0], userId) in GetSharedWithMe(q, userId).pdfs
  {
    var c := ShareCheck(pdfs, users, caller, pdfId, userId, email);
    var i := c.value.0;
    var u := users[c.value.1];
    var p := Granted(pdfs[i], u, token, now);
    var q := pdfs[i := p];
    AppendKeepsGranteesUnique(pdfs[i].sharedWith, Grant(Some(u.id), u.email, token, now), userId);
    assert p.sharedWith == pdfs[i].sharedWith + [Grant(Some(u.id), u.email, token, now)];
    assert p.sharedWith[|pdfs[i].sharedWith|].userId == Some(userId);
    forall k | 0 <= k < |pdfs| ensures q[k].id == pdfs[k].id {}
    FindSameIds(pdfs, q, pdfId);
    assert HasGrant(q[i].sharedWith, userId);
  }

  // ---- generatePublicLink's change ----

  /** The pdf after `pdf.publicAccessToken = publicToken` and `save()`. */
  function WithPublicToken(p: Pdf, token: string, now: nat): (q: Pdf)
    ensures q.publicAccessToken == Some(token) && q.updatedAt == now
    ensures q.(publicAccessToken := p.publicAccessToken, updatedAt := p.updatedAt) == p
  {
    p.(publicAccessToken := Some(token), updatedAt := now)
  }

  /** The token is replaced, not added to: after the change the public view
      opens for the new token and for no other query. */
  lemma OnlyNewTokenOpens(pdfs: seq<Pdf>, i: nat, token: string, now: nat, query: Option<string>)
    requires i < |pdfs| && FindPdf(pdfs, pdfs[i].id) == Some(i) && token != ""
    ensures ViewPublicPdf(pdfs[i := WithPublicToken(pdfs[i], token, now)], pdfs[i].id, query).Ok? <==> query == Some(token)
  {
    var q := pdfs[i := WithPublicToken(pdfs[i], token, now)];
    forall k | 0 <= k < |pdfs| ensures q[k].id == pdfs[k].id {}
    FindSameIds(pdfs, q, pdfs[i].id);
  }

  // ---- viewPublicPdf ----

  /** The test viewPublicPdf applies: a non-empty public token equal to the query's. */
  predicate PublicTokenAccepts(p: Pdf, query: Option<string>) {
    p.publicAccessToken.Some? && p.publicAccessToken.value != "" && query == p.publicAccessToken
  }

  /** GET /:id/view?token=... (no authentication). */
  function ViewPublicPdf(pdfs: seq<Pdf>, id: Id, query: Option<string>): (r: Reply<PdfView>)
    ensures FindPdf(pdfs, id).None? <==> r == Err(404, "PDF not found")
    ensures r.Ok? <==> FindPdf(pdfs, id).Some? && PublicTokenAccepts(pdfs[FindPdf(pdfs, id).value], query)
    ensures r.Ok? ==> r == Ok(200, ViewOf(pdfs[FindPdf(pdfs, id).value]))
    ensures r.Err? && r.status != 404 ==> r == Err(403, "Invalid public link")
  {
    match FindPdf(pdfs, id)
    case None => Err(404, "PDF not found")
    case Some(i) =>
      if !PublicTokenAccepts(pdfs[i], query) then Err(403, "Invalid public link")
      else Ok(200, ViewOf(pdfs[i]))
  }

  /** The anonymous path knows nothing of identities: replacing a pdf's
      owner and grants does not change what any query token obtains. */
  lemma PublicViewIgnoresIdentity(pdfs: seq<Pdf>, i: nat, id: Id, query: Option<string>,
                                  owner: Id, grants: seq<Grant>)
    requires i < |pdfs|
    ensures ViewPublicPdf(pdfs[i := pdfs[i].(uploadedBy := owner, sharedWith := grants)], id, query)
            == ViewPublicPdf(pdfs, id, query)
  {
    var q := pdfs[i := pdfs[i].(uploadedBy := owner, sharedWith := grants)];
    forall k | 0 <= k < |pdfs| ensures q[k].id == pdfs[k].id {}
    assert FindPdf(q, id) == FindPdf(pdfs, id) by {
      FindSameIds(pdfs, q, id);
    }
  }

  lemma {:induction false} FindSameIds(a: seq<Pdf>, b: seq<Pdf>, id: Id)
    requires |a| == |b| && forall k | 0 <= k < |a| :: a[k].id == b[k].id
    ensures FindPdf(a, id) == FindPdf(b, id)
  {
    if a != [] {
      FindSameIds(a[1..], b[1..], id);
    }
  }

  // ---- getExternalAccess ----

  /** GET /:id/external-access: allowed exactly to users with a grant. */
  function GetExternalAccess(pdfs: seq<Pdf>, caller: Id, id: Id): (r: Reply<PdfView>)
    ensures FindPdf(pdfs, id).None? <==> r == Err(404, "PDF not found")
    ensures r.Ok? <==> FindPdf(pdfs, id).Some? && HasGrant(pdfs[FindPdf(pdfs, id).value].sharedWith, caller)
    ensures r.Ok? ==> r == Ok(200, ViewOf(pdfs[FindPdf(pdfs, id).value]))
    ensures r.Err? && r.status != 404 ==> r == Err(403, "You don't have access to this PDF")
  {
    match FindPdf(pdfs, id)
    case None => Err(404, "PDF not found")
    case Some(i) =>
      FindGrantIffHasGrant(pdfs[i].sharedWith, caller);
      if FindGrant(pdfs[i].sharedWith, caller).None? then Err(403, "You don't have access to this PDF")
      else Ok(200, ViewOf(pdfs[i]))
  }

  /** Owning a pdf is not a grant: the owner without an entry of their own is refused. */
  lemma OwnerWithoutGrantRefused(pdfs: seq<Pdf>, caller: Id, id: Id)
    requires FindPdf(pdfs, id).Some?
    requires IsOwner(pdfs[FindPdf(pdfs, id).value], caller)
    requires !HasGrant(pdfs[FindPdf(pdfs, id).value].sharedWith, caller)
    ensures GetExternalAccess(pdfs, caller, id) == Err(403, "You don't have access to this PDF")
  {
  }

  // ---- getSharedWithMe ----

  /** One entry of the shared-with-me list; `owner` is the owner's id. */
  datatype SharedItem = SharedItem(
    id: Id, title: string, fileId: string, fileUrl: string, createdAt: nat,
    owner: Id, sharedAt: nat, accessToken: string)

  datatype SharedList = SharedList(pdfs: seq<SharedItem>, count: nat)

  function SharedWith(uid: Id): Pdf -> bool {
    (p: Pdf) => HasGrant(p.sharedWith, uid)
  }

  /** `.sort({ createdAt: -1 })` */
  predicate NewestFirst(a: Pdf, b: Pdf) {
    a.createdAt >= b.createdAt
  }

  /** The item for a pdf, taken from the caller's (first) grant on it. */
  function SharedItemOf(p: Pdf, uid: Id): SharedItem
    requires HasGrant(p.sharedWith, uid)
  {
    FindGrantIffHasGrant(p.sharedWith, uid);
    var g := p.sharedWith[FindGrant(p.sharedWith, uid).value];
    SharedItem(p.id, p.title, p.fileId, p.fileUrl, p.createdAt, p.uploadedBy, g.createdAt, g.accessToken)
  }

  /** GET /shared-with-me: the pdfs with an entry for the caller, newest first. */
  function GetSharedWithMe(pdfs: seq<Pdf>, caller: Id): (r: SharedList)
    ensures r.count == |r.pdfs|
    ensures |r.pdfs| == |Filter(pdfs, SharedWith(caller))|
    ensures forall k | 0 <= k < |r.pdfs| ::
              exists i | 0 <= i < |pdfs| :: HasGrant(pdfs[i].sharedWith, caller) && r.pdfs[k] == SharedItemOf(pdfs[i], caller)
    ensures forall i | 0 <= i < |pdfs| ::
              HasGrant(pdfs[i].sharedWith, caller) ==> SharedItemOf(pdfs[i], caller) in r.pdfs
    ensures forall k | 0 < k < |r.pdfs| :: r.pdfs[k - 1].createdAt >= r.pdfs[k].createdAt
  {
    var mine := Filter(pdfs, SharedWith(caller));
    var sorted := SortBy(mine, NewestFirst);
    SortedAllShared(pdfs, caller, mine, sorted);
    var items := ItemsOf(sorted, caller);
    NewestFirstTotal();
    SharedListFacts(pdfs, caller, mine, sorted, items);
    SharedList(items, |items|)
  }

  lemma NewestFirstTotal()
    ensures Total(NewestFirst)
  {
  }

  function ItemsOf(sorted: seq<Pdf>, caller: Id): (items: seq<SharedItem>)
    requires forall k | 0 <= k < |sorted| :: HasGrant(sorted[k].sharedWith, caller)
    ensures |items| == |sorted| && forall k | 0 <= k < |sorted| :: items[k] == SharedItemOf(sorted[k], caller)
  {
    seq(|sorted|, k requires 0 <= k < |sorted| => SharedItemOf(sorted[k], caller))
  }

  lemma SortedAllShared(pdfs: seq<Pdf>, caller: Id, mine: seq<Pdf>, sorted: seq<Pdf>)
    requires mine == Filter(pdfs, SharedWith(caller))
    requires sorted == SortBy(mine, NewestFirst)
    ensures forall k | 0 <= k < |sorted| :: HasGrant(sorted[k].sharedWith, caller)
  {
    forall k | 0 <= k < |sorted| ensures HasGrant(sorted[k].sharedWith, caller) {
      SortedMembers(mine, NewestFirst, sorted[k]);
      var j :| 0 <= j < |mine| && mine[j] == sorted[k];
      assert SharedWith(caller)(mine[j]);
    }
  }

  lemma SharedListFacts(pdfs: seq<Pdf>, caller: Id, mine: seq<Pdf>, sorted: seq<Pdf>, items: seq<SharedItem>)
    requires Total(NewestFirst)
    requires mine == Filter(pdfs, SharedWith(caller))
    requires sorted == SortBy(mine, NewestFirst)
    requires |items| == |sorted|
    requires forall k | 0 <= k < |sorted| :: HasGrant(sorted[k].sharedWith, caller) && items[k] == SharedItemOf(sorted[k], caller)
    ensures forall k | 0 <= k < |items| ::
              exists i | 0 <= i < |pdfs| :: HasGrant(pdfs[i].sharedWith, caller) && items[k] == SharedItemOf(pdfs[i], caller)
    ensures forall i | 0 <= i < |pdfs| ::
              HasGrant(pdfs[i].sharedWith, caller) ==> SharedItemOf(pdfs[i], caller) in items
    ensures forall k | 0 < k < |items| :: items[k - 1].createdAt >= items[k].createdAt
  {
    SharedListSound(pdfs, caller, mine, sorted, items);
    SharedListComplete(pdfs, caller, mine, sorted, items);
    forall k | 0 < k < |items| ensures items[k - 1].createdAt >= items[k].createdAt {
      assert NewestFirst(sorted[k - 1], sorted[k]);
    }
  }

  lemma SharedListSound(pdfs: seq<Pdf>, caller: Id, mine: seq<Pdf>, sorted: seq<Pdf>, items: seq<SharedItem>)
    requires mine == Filter(pdfs, SharedWith(caller))
    requires sorted == SortBy(mine, NewestFirst)
    requires |items| == |sorted|
    requires forall k | 0 <= k < |sorted| :: HasGrant(sorted[k].sharedWith, caller) && items[k] == SharedItemOf(sorted[k], caller)
    ensures forall k | 0 <= k < |items| ::
              exists i | 0 <= i < |pdfs| :: HasGrant(pdfs[i].sharedWith, caller) && items[k] == SharedItemOf(pdfs[i], caller)
  {
    forall k | 0 <= k < |items|
      ensures exists i | 0 <= i < |pdfs| :: HasGrant(pdfs[i].sharedWith, caller) && items[k] == SharedItemOf(pdfs[i], caller)
    {
      SortedMembers(mine, NewestFirst, sorted[k]);
      var i :| 0 <= i < |pdfs| && pdfs[i] == sorted[k];
    }
  }

  lemma SharedListComplete(pdfs: seq<Pdf>, caller: Id, mine: seq<Pdf>, sorted: seq<Pdf>, items: seq<SharedItem>)
    requires mine == Filter(pdfs, SharedWith(caller))
    requires sorted == SortBy(mine, NewestFirst)
    requires |items| == |sorted|
    requires forall k | 0 <= k < |sorted| :: HasGrant(sorted[k].sharedWith, caller) && items[k] == SharedItemOf(sorted[k], caller)
    ensures forall i | 0 <= i < |pdfs| ::
              HasGrant(pdfs[i].sharedWith, caller) ==> SharedItemOf(pdfs[i], caller) in items
  {
    forall i | 0 <= i < |pdfs| && HasGrant(pdfs[i].sharedWith, caller)
      ensures SharedItemOf(pdfs[i], caller) in items
    {
      assert SharedWith(caller)(pdfs[i]);
      SortedMembers(mine, NewestFirst, pdfs[i]);
      ItemForMember(sorted, items, caller, pdfs[i]);
    }
  }

  lemma ItemForMember(sorted: seq<Pdf>, items: seq<SharedItem>, caller: Id, x: Pdf)
    requires |items| == |sorted|
    requires forall k | 0 <= k < |sorted| :: HasGrant(sorted[k].sharedWith, caller) && items[k] == SharedItemOf(sorted[k], caller)
    requires x in sorted
    ensures HasGrant(x.sharedWith, caller) && SharedItemOf(x, caller) in items
  {
    var k :| 0 <= k < |sorted| && sorted[k] == x;
    assert items[k] == SharedItemOf(x, caller);
  }

  // ---- getAllUsers ----

  /** `.select("name email")`: the id, name and email only. */
  datatype UserSummary = UserSummary(id: Id, name: string, email: string)

  datatype UserList = UserList(users: seq<UserSummary>, count: nat)

  function SummaryOf(u: User): UserSummary {
    UserSummary(u.id, u.name, u.email)
  }

  function OtherThan(uid: Id): User -> bool {
    (u: User) => u.id != uid
  }

  /** `.sort({ name: 1, email: 1 })` */
  predicate NameThenEmail(a: User, b: User) {
    (StrLe(a.name, b.name) && a.name != b.name) || (a.name == b.name && StrLe(a.email, b.email))
  }

  lemma NameThenEmailTotal()
    ensures Total(NameThenEmail)
  {
    forall a: User, b: User ensures NameThenEmail(a, b) || NameThenEmail(b, a) {
      StrLeTotal(a.name, b.name);
      StrLeTotal(a.email, b.email);
    }
  }

  /** GET /users (and /api/users/all): every other user, by name then email. */
  function GetAllUsers(users: seq<User>, caller: Id): (r: UserList)
    ensures r.count == |r.users| == |Filter(users, OtherThan(caller))|
    ensures forall k | 0 <= k < |r.users| :: r.users[k].id != caller
    ensures forall k | 0 <= k < |r.users| :: exists i | 0 <= i < |users| :: r.users[k] == SummaryOf(users[i])
    ensures forall i | 0 <= i < |users| :: users[i].id != caller ==> SummaryOf(users[i]) in r.users
    ensures forall k | 0 < k < |r.users| ::
              StrLe(r.users[k - 1].name, r.users[k].name) &&
              (r.users[k - 1].name == r.users[k].name ==> StrLe(r.users[k - 1].email, r.users[k].email))
  {
    NameThenEmailTotal();
    var others := Filter(users, OtherThan(caller));
    var sorted := SortBy(others, NameThenEmail);
    var out := seq(|sorted|, k requires 0 <= k < |sorted| => SummaryOf(sorted[k]));
    UserListFacts(users, caller, others, sorted, out);
    UserListOrdered(sorted, out);
    UserList(out, |out|)
  }

  lemma UserListOrdered(sorted: seq<User>, out: seq<UserSummary>)
    requires SortedBy(sorted, NameThenEmail)
    requires |out| == |sorted| && forall k | 0 <= k < |sorted| :: out[k] == SummaryOf(sorted[k])
    ensures forall k | 0 < k < |out| ::
              StrLe(out[k - 1].name, out[k].name) &&
              (out[k - 1].name == out[k].name ==> StrLe(out[k - 1].email, out[k].email))
  {
    forall k | 0 < k < |out|
      ensures StrLe(out[k - 1].name, out[k].name)
      ensures out[k - 1].name == out[k].name ==> StrLe(out[k - 1].email, out[k].email)
    {
      assert NameThenEmail(sorted[k - 1], sorted[k]);
      StrLeReflexive(out[k].name);
    }
  }

  lemma UserListFacts(users: seq<User>, caller: Id, others: seq<User>, sorted: seq<User>, out: seq<UserSummary>)
    requires Total(NameThenEmail)
    requires others == Filter(users, OtherThan(caller))
    requires sorted == SortBy(others, NameThenEmail)
    requires |out| == |sorted| && forall k | 0 <= k < |sorted| :: out[k] == SummaryOf(sorted[k])
    ensures forall k | 0 <= k < |out| :: out[k].id != caller
    ensures forall k | 0 <= k < |out| :: exists i | 0 <= i < |users| :: out[k] == SummaryOf(users[i])
    ensures forall i | 0 <= i < |users| :: users[i].id != caller ==> SummaryOf(users[i]) in out
  {
    UserListSound(users, caller, others, sorted, out);
    UserListComplete(users, caller, others, sorted, out);
  }

  lemma UserListSound(users: seq<User>, caller: Id, others: seq<User>, sorted: seq<User>, out: seq<UserSummary>)
    requires others == Filter(users, OtherThan(caller))
    requires sorted == SortBy(others, NameThenEmail)
    requires |out| == |sorted| && forall k | 0 <= k < |sorted| :: out[k] == SummaryOf(sorted[k])
    ensures forall k | 0 <= k < |out| :: out[k].id != caller
    ensures forall k | 0 <= k < |out| :: exists i | 0 <= i < |users| :: out[k] == SummaryOf(users[i])
  {
    forall k | 0 <= k < |out|
      ensures out[k].id != caller
      ensures exists i | 0 <= i < |users| :: out[k] == SummaryOf(users[i])
    {
      SortedMembers(others, NameThenEmail, sorted[k]);
      var i :| 0 <= i < |users| && users[i] == sorted[k];
      assert OtherThan(caller)(sorted[k]);
    }
  }

  lemma UserListComplete(users: seq<User>, caller: Id, others: seq<User>, sorted: seq<User>, out: seq<UserSummary>)
    requires others == Filter(users, OtherThan(caller))
    requires sorted == SortBy(others, NameThenEmail)
    requires |out| == |sorted| && forall k | 0 <= k < |sorted| :: out[k] == SummaryOf(sorted[k])
    ensures forall i | 0 <= i < |users| :: users[i].id != caller ==> SummaryOf(users[i]) in out
  {
    forall i | 0 <= i < |users| && users[i].id != caller
      ensures SummaryOf(users[i]) in out
    {
      assert OtherThan(caller)(users[i]);
      SortedMembers(others, NameThenEmail, users[i]);
      SummaryForMember(sorted, out, users[i]);
    }
  }

  lemma SummaryForMember(sorted: seq<User>, out: seq<UserSummary>, x: User)
    requires |out| == |sorted| && forall k | 0 <= k < |sorted| :: out[k] == SummaryOf(sorted[k])
    requires x in sorted
    ensures SummaryOf(x) in out
  {
    var k :| 0 <= k < |sorted| && sorted[k] == x;
    assert out[k] == SummaryOf(x);
  }
}
