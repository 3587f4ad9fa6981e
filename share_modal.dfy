/** The sharing dialog of client/src/components/ShareModal.jsx: the user
    search, the grant request and what follows it, the public link, and the
    avatar initial. */
module ShareModal {
  import opened Seqs
  import opened Text
  import opened Http
  import opened Records
  import opened ClientValues
  import Routes
  import PdfSharingController

  type UserSummary = PdfSharingController.UserSummary

  // ---- the search ----

  /** The name or the email contains the query, ignoring ASCII case. */
  function NameOrEmailMatches(query: string): UserSummary -> bool {
    (u: UserSummary) => Contains(Lower(u.name), Lower(query)) || Contains(Lower(u.email), Lower(query))
  }

  /** The search effect: a blank query lists nobody; any other query,
      untrimmed, lists the users whose name or email contains it, in list
      order. */
  function Candidates(users: seq<UserSummary>, query: string): (r: seq<UserSummary>)
    ensures IsBlank(query) ==> r == []
    ensures forall k | 0 <= k < |r| :: r[k] in users && NameOrEmailMatches(query)(r[k])
    ensures !IsBlank(query) ==> forall k | 0 <= k < |users| ::
              NameOrEmailMatches(query)(users[k]) ==> users[k] in r
    ensures IsSubsequence(r, users)
  {
    if IsBlank(query) then [] else Filter(users, NameOrEmailMatches(query))
  }

  /** What fetchUsers stores: `response.data` of GET /users/all, which is
      the `{users, count}` object. */
  function StoredUsersAsWritten(body: PdfSharingController.UserList): (r: JsonList<UserSummary>)
    ensures r.Wrapped? && r.elems == body.users
  {
    Wrapped(body.users, body.count)
  }

  /** The search effect as written, on what `users` holds: a blank query
      never touches it; another query calls `.filter`, which an object does
      not have. */
  function CandidatesAsWritten(stored: JsonList<UserSummary>, query: string): (r: Render<UserSummary>)
    ensures IsBlank(query) ==> r == Shown([])
    ensures !IsBlank(query) && stored.Array? ==> r == Shown(Candidates(stored.elems, query))
    ensures !IsBlank(query) && stored.Wrapped? ==> r == RenderThrew(TypeError)
  {
    if IsBlank(query) then Shown([])
    else if stored.Wrapped? then RenderThrew(TypeError)
    else Shown(Candidates(stored.elems, query))
  }

  /** Once the user list has arrived, every search throws. */
  lemma SearchThrowsAsWritten(users: seq<User>, caller: Id, query: string)
    requires !IsBlank(query)
    ensures CandidatesAsWritten(StoredUsersAsWritten(PdfSharingController.GetAllUsers(users, caller)), query)
            == RenderThrew(TypeError)
  {
  }

  /** With the list read out of the server's answer (`response.data.users`),
      no candidate is the caller, and each is some stored user... */
  lemma CandidatesSound(users: seq<User>, caller: Id, query: string)
    ensures var r := Candidates(PdfSharingController.GetAllUsers(users, caller).users, query);
            forall k | 0 <= k < |r| ::
              r[k].id != caller && exists i | 0 <= i < |users| :: r[k] == PdfSharingController.SummaryOf(users[i])
  {
    var listed := PdfSharingController.GetAllUsers(users, caller).users;
    var r := Candidates(listed, query);
    forall k | 0 <= k < |r|
      ensures r[k].id != caller && exists i | 0 <= i < |users| :: r[k] == PdfSharingController.SummaryOf(users[i])
    {
      ListedIsStored(users, caller, r[k]);
    }
  }

  lemma ListedIsStored(users: seq<User>, caller: Id, u: UserSummary)
    requires u in PdfSharingController.GetAllUsers(users, caller).users
    ensures u.id != caller && exists i | 0 <= i < |users| :: u == PdfSharingController.SummaryOf(users[i])
  {
    var listed := PdfSharingController.GetAllUsers(users, caller).users;
    var k :| 0 <= k < |listed| && listed[k] == u;
  }

  /** ... and every other user whose name or email matches is a candidate. */
  lemma CandidatesComplete(users: seq<User>, caller: Id, query: string, i: nat)
    requires i < |users| && users[i].id != caller && !IsBlank(query)
    requires NameOrEmailMatches(query)(PdfSharingController.SummaryOf(users[i]))
    ensures PdfSharingController.SummaryOf(users[i]) in Candidates(PdfSharingController.GetAllUsers(users, caller).users, query)
  {
    var listed := PdfSharingController.GetAllUsers(users, caller).users;
    var u := PdfSharingController.SummaryOf(users[i]);
    assert u in listed;
    var k :| 0 <= k < |listed| && listed[k] == u;
  }

  // ---- the dialog's state ----

  /** `searchQuery`, `users`, `filteredUsers` and `publicShareLink`. */
  datatype ShareState = ShareState(query: string, users: seq<UserSummary>, filtered: seq<UserSummary>, publicLink: string)

  /** The search effect has run: the candidates are those of the query. */
  predicate Consistent(s: ShareState) {
    s.filtered == Candidates(s.users, s.query)
  }

  /** The dialog's state when the component is first mounted. Closing
      only hides it (its render returns null while the hooks live on), so
      on a later opening the query, the users, the candidates and the link
      are those it was closed with. */
  function Opened(): (s: ShareState)
    ensures Consistent(s) && s.query == "" && s.filtered == [] && s.publicLink == ""
  {
    BlankEmpty();
    ShareState("", [], [], "")
  }

  lemma BlankEmpty()
    ensures IsBlank("")
  {
  }

  /** Typing into the search box, followed by the effect. */
  function Typed(s: ShareState, query: string): (r: ShareState)
    ensures Consistent(r)
    ensures r.query == query && r.users == s.users && r.publicLink == s.publicLink
  {
    s.(query := query, filtered := Candidates(s.users, query))
  }

  /** The user list arriving, read as a list, followed by the effect. */
  function UsersLoaded(s: ShareState, users: seq<UserSummary>): (r: ShareState)
    ensures Consistent(r)
    ensures r.query == s.query && r.users == users && r.publicLink == s.publicLink
  {
    s.(users := users, filtered := Candidates(users, s.query))
  }

  // ---- granting access ----

  /** POST `/pdf-sharing/${pdfId}/share/email` with the clicked user's id
      and email. */
  function GrantRequest(pdfId: Id, u: UserSummary): (req: Request)
    ensures req.verb == Routes.POST && req.path == Routes.SharingApi + [pdfId, "share", "email"]
    ensures req.fields.Keys == {"userId", "email"}
    ensures req.fields["userId"] == u.id && req.fields["email"] == u.email
  {
    Request(Routes.POST, Routes.SharingApi + [pdfId, "share", "email"], map["userId" := u.id, "email" := u.email])
  }

  /** The request reaches shareWithEmail. */
  lemma GrantRequestReachesShare(pdfId: Id, u: UserSummary)
    requires pdfId != ""
    ensures Routes.HandlerFor(GrantRequest(pdfId, u).verb, GrantRequest(pdfId, u).path) == Some(Routes.ShareWithEmail)
  {
    Routes.ShareEmailRoute(pdfId);
  }

  /** A candidate from the server's list, with a non-empty id and email,
      passes shareWithEmail's field and user checks on a pdf the caller
      owns: it is granted, or refused only because it already has access. */
  lemma CandidatePassesUserCheck(pdfs: seq<Pdf>, users: seq<User>, caller: Id, pdfId: Id, query: string, u: UserSummary)
    requires UniqueUserIds(users)
    requires OwnedPdf(pdfs, caller, pdfId).Ok?
    requires u in Candidates(PdfSharingController.GetAllUsers(users, caller).users, query)
    requires u.id != "" && u.email != ""
    ensures var c := PdfSharingController.ShareCheck(pdfs, users, caller, pdfId, u.id, u.email);
            c.Ok? || c == Err(400, "User already has access to this PDF")
  {
    ListedIsStored(users, caller, u);
    var i :| 0 <= i < |users| && u == PdfSharingController.SummaryOf(users[i]);
    var f := FindUser(users, u.id);
    assert f.Some? by { assert users[i].id == u.id; }
    assert f.value == i;
    assert PdfSharingController.UserMatches(users, u.id, u.email);
  }

  const GrantFailed := "Failed to grant access"

  /** The failure toast as written: the server's text is read under
      `message`. */
  function GrantToastAsWritten(data: Option<ErrorData>): (t: string)
    ensures t == ToastText(data, GrantFailed)
  {
    ToastText(data, GrantFailed)
  }

  /** shareWithEmail puts its reasons under `error`, so the failure toast
      never shows them. */
  lemma RefusalReasonHiddenAsWritten(pdfs: seq<Pdf>, users: seq<User>, caller: Id, pdfId: Id, userId: Id, email: string)
    requires PdfSharingController.ShareCheck(pdfs, users, caller, pdfId, userId, email).Err?
    ensures GrantToastAsWritten(Received(PdfSharingController.ShareCheck(pdfs, users, caller, pdfId, userId, email), ErrorKey).data)
            == GrantFailed
  {
  }

  /** The failure toast reading the text under either key:
      `data?.message || data?.error || fallback`. */
  function GrantToast(data: Option<ErrorData>): (t: string)
    ensures data.Some? && (data.value.key == MessageKey || data.value.key == ErrorKey) && data.value.text != "" ==>
              t == data.value.text
    ensures !(data.Some? && (data.value.key == MessageKey || data.value.key == ErrorKey) && data.value.text != "") ==>
              t == GrantFailed
  {
    match data
    case Some(ErrorData(key, text)) =>
      if (key == MessageKey || key == ErrorKey) && text != "" then text else GrantFailed
    case None => GrantFailed
  }

  /** With it, each refusal of shareWithEmail shows its own reason. */
  lemma RefusalReasonShown(pdfs: seq<Pdf>, users: seq<User>, caller: Id, pdfId: Id, userId: Id, email: string)
    requires PdfSharingController.ShareCheck(pdfs, users, caller, pdfId, userId, email).Err?
    ensures var c := PdfSharingController.ShareCheck(pdfs, users, caller, pdfId, userId, email);
            GrantToast(Received(c, ErrorKey).data) == c.message
  {
  }

  /** `user.name || user.email` */
  function Label(u: UserSummary): string {
    if u.name != "" then u.name else u.email
  }

  /** handleGrantAccess after the request: success clears the query and
      the candidates (the effect then keeps them cleared); a failure leaves
      the state as it was and shows the toast as written. The second
      component is the toast. */
  function AfterGrant<T>(s: ShareState, u: UserSummary, outcome: Outcome<T>): (r: (ShareState, string))
    ensures outcome.Succeeded? ==>
              && r.0 == s.(query := "", filtered := [])
              && Consistent(r.0)
              && r.1 == "Access granted to " + Label(u)
    ensures outcome.Rejected? ==> r.0 == s && r.1 == GrantToastAsWritten(outcome.data)
  {
    match outcome
    case Succeeded(_) =>
      BlankEmpty();
      (s.(query := "", filtered := []), "Access granted to " + Label(u))
    case Rejected(data) => (s, GrantToastAsWritten(data))
  }

  /** A grant shareWithEmail refuses leaves the dialog as it was and, as
      written, toasts only the generic failure. */
  lemma RefusedGrantToastsFallback(s: ShareState, u: UserSummary,
                                   pdfs: seq<Pdf>, users: seq<User>, caller: Id, pdfId: Id, userId: Id, email: string)
    requires PdfSharingController.ShareCheck(pdfs, users, caller, pdfId, userId, email).Err?
    ensures var c := PdfSharingController.ShareCheck(pdfs, users, caller, pdfId, userId, email);
            AfterGrant(s, u, Received(c, ErrorKey)) == (s, GrantFailed)
  {
    RefusalReasonHiddenAsWritten(pdfs, users, caller, pdfId, userId, email);
  }

  /** handleGrantAccess with the corrected failure toast; success is as
      written. */
  function AfterGrantCorrected<T>(s: ShareState, u: UserSummary, outcome: Outcome<T>): (r: (ShareState, string))
    ensures outcome.Succeeded? ==> r == AfterGrant(s, u, outcome)
    ensures outcome.Rejected? ==> r.0 == s && r.1 == GrantToast(outcome.data)
  {
    match outcome
    case Succeeded(_) => AfterGrant(s, u, outcome)
    case Rejected(data) => (s, GrantToast(data))
  }

  /** With it, a refused grant shows shareWithEmail's own reason. */
  lemma RefusedGrantToastsReason(s: ShareState, u: UserSummary,
                                 pdfs: seq<Pdf>, users: seq<User>, caller: Id, pdfId: Id, userId: Id, email: string)
    requires PdfSharingController.ShareCheck(pdfs, users, caller, pdfId, userId, email).Err?
    ensures var c := PdfSharingController.ShareCheck(pdfs, users, caller, pdfId, userId, email);
            AfterGrantCorrected(s, u, Received(c, ErrorKey)) == (s, c.message)
  {
    RefusalReasonShown(pdfs, users, caller, pdfId, userId, email);
  }

  /** The toast of a successful grant reads as the server's own reply:
      both name the user by name, or by email when the name is empty. */
  lemma SuccessToastIsServerMessage<T>(s: ShareState, u: User, v: T)
    ensures AfterGrant(s, PdfSharingController.SummaryOf(u), Succeeded(v)).1
              == "Access granted to " + PdfSharingController.DisplayName(u)
  {
  }

  /** A grant keeps a consistent state consistent. */
  lemma AfterGrantKeepsConsistent<T>(s: ShareState, u: UserSummary, outcome: Outcome<T>)
    requires Consistent(s)
    ensures Consistent(AfterGrant(s, u, outcome).0)
  {
  }

  // ---- the public link ----

  const LinkGenerated := "Public link generated"
  const LinkFailed := "Failed to generate public link"

  /** handleGeneratePublicLink after the request: `response.data.publicLink`
      is shown; a failure keeps the previous link. */
  function AfterPublicLink(s: ShareState, outcome: Outcome<string>): (r: (ShareState, string))
    ensures outcome.Succeeded? ==> r.0 == s.(publicLink := outcome.value) && r.1 == LinkGenerated
    ensures outcome.Rejected? ==> r.0 == s && r.1 == ToastText(outcome.data, LinkFailed)
  {
    match outcome
    case Succeeded(link) => (s.(publicLink := link), LinkGenerated)
    case Rejected(data) => (s, ToastText(data, LinkFailed))
  }

  /** The link shown carries the token generatePublicLink stored. */
  lemma ShownLinkCarriesToken(s: ShareState, env: string, pdfId: Id, token: string)
    requires '=' !in token
    ensures var shown := AfterPublicLink(s, Succeeded(PdfSharingController.PublicLink(env, pdfId, token))).0;
            PdfSharingController.LinkToken(shown.publicLink) == token
  {
    PdfSharingController.LinkTokenRoundTrip(env, pdfId, token);
  }

  // ---- the avatar ----

  /** `(user.name || user.email).charAt(0).toUpperCase()`: the upper-cased
      first character of the label, or nothing when the label is empty. */
  function AvatarInitial(u: UserSummary): (r: string)
    ensures Label(u) == "" <==> r == ""
    ensures Label(u) != "" ==> r == [UpperChar(Label(u)[0])]
  {
    var name := Label(u);
    if name == "" then "" else [UpperChar(name[0])]
  }

  /** The initial is never a lower-case ASCII letter, and a name wins over
      the email. */
  lemma AvatarInitialFacts(u: UserSummary)
    ensures forall k | 0 <= k < |AvatarInitial(u)| :: !('a' <= AvatarInitial(u)[k] <= 'z')
    ensures u.name != "" ==> AvatarInitial(u) == [UpperChar(u.name[0])]
    ensures u.name == "" && u.email != "" ==> AvatarInitial(u) == [UpperChar(u.email[0])]
  {
  }
}
