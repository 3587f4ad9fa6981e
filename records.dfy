/** The stored record shapes: the Pdf schema with its embedded sharing grants
    (server/models/pdfModels.js), the Comment schema
    (server/models/commentModels.js) and the User fields the controllers read.
    Also the lookups every handler starts with, and the comment cascade that
    the Pdf schema's pre-deleteOne hook is meant to run. */
module Records {
  import opened Seqs
  import opened Http

  /** An ObjectId, as its string. The empty string stands for "absent". */
  type Id = string

  /** A `sharedWith` entry. `userId` is not required by the schema; `email`
      and `accessToken` are; `createdAt` defaults to the save time. */
  datatype Grant = Grant(userId: Option<Id>, email: string, accessToken: string, createdAt: nat)

  /** A Pdf document. `publicAccessToken` is a single optional string, so a
      pdf carries at most one public token. `createdAt` and `updatedAt` are
      the schema's timestamps. */
  datatype Pdf = Pdf(
    id: Id,
    title: string,
    fileId: string,
    fileUrl: string,
    uploadedBy: Id,
    publicAccessToken: Option<string>,
    sharedWith: seq<Grant>,
    createdAt: nat,
    updatedAt: nat)

  /** A Comment document, with the schema's timestamps. */
  datatype Comment = Comment(id: Id, pdf: Id, user: Id, text: string, createdAt: nat, updatedAt: nat)

  /** The user fields the controllers use. */
  datatype User = User(id: Id, userName: string, name: string, email: string, password: string)

  /** Mongoose's `required` validator: a required string must be non-empty. */
  predicate ValidGrant(g: Grant) {
    g.email != "" && g.accessToken != ""
  }

  /** What `pdf.save()` validates: the four required fields and every grant. */
  predicate ValidPdf(p: Pdf) {
    && p.title != "" && p.fileId != "" && p.fileUrl != "" && p.uploadedBy != ""
    && forall k | 0 <= k < |p.sharedWith| :: ValidGrant(p.sharedWith[k])
  }

  /** What `comment.save()` validates: pdf, user and text are required. */
  predicate ValidComment(c: Comment) {
    c.pdf != "" && c.user != "" && c.text != ""
  }

  // ---- grants ----

  /** `pdf.sharedWith.find(share => share.userId === uid)`, as a position. */
  function FindGrant(grants: seq<Grant>, uid: Id): (r: Option<nat>)
    ensures r.Some? ==> r.value < |grants| && grants[r.value].userId == Some(uid)
    ensures r.Some? ==> forall k | 0 <= k < r.value :: grants[k].userId != Some(uid)
    ensures r.None? <==> forall k | 0 <= k < |grants| :: grants[k].userId != Some(uid)
  {
    IndexWhere(grants, (g: Grant) => g.userId == Some(uid))
  }

  /** Some entry of `grants` is for `uid`. */
  predicate HasGrant(grants: seq<Grant>, uid: Id) {
    exists k | 0 <= k < |grants| :: grants[k].userId == Some(uid)
  }

  lemma FindGrantIffHasGrant(grants: seq<Grant>, uid: Id)
    ensures FindGrant(grants, uid).Some? <==> HasGrant(grants, uid)
  {
    if HasGrant(grants, uid) {
      var k :| 0 <= k < |grants| && grants[k].userId == Some(uid);
      assert FindGrant(grants, uid).Some?;
    }
  }

  /** No two entries are for the same user. */
  predicate GranteesUnique(grants: seq<Grant>) {
    forall j, k | 0 <= j < k < |grants| :: grants[j].userId != grants[k].userId
  }

  lemma {:induction false} AppendKeepsGranteesUnique(grants: seq<Grant>, g: Grant, uid: Id)
    requires GranteesUnique(grants)
    requires g.userId == Some(uid) && !HasGrant(grants, uid)
    ensures GranteesUnique(grants + [g])
  {
    var s := grants + [g];
    forall j, k | 0 <= j < k < |s| ensures s[j].userId != s[k].userId {
      if k == |grants| {
        assert s[j] == grants[j];
        assert grants[j].userId != Some(uid);
      } else {
        assert s[j] == grants[j] && s[k] == grants[k];
      }
    }
  }

  // ---- access checks written inline in the controllers ----

  predicate IsOwner(p: Pdf, uid: Id) {
    p.uploadedBy == uid
  }

  /** createComment's test: the owner, or a user with a grant. */
  predicate CanComment(p: Pdf, uid: Id) {
    HasGrant(p.sharedWith, uid) || IsOwner(p, uid)
  }

  // ---- table lookups (`findById`, `findOne`) ----

  /** The guard shared by getPdfDetails, updatePdf, deletePdf, shareWithEmail
      and generatePublicLink: the pdf must exist (404), then the caller must
      be its uploader (403). A grant does not count. */
  function OwnedPdf(pdfs: seq<Pdf>, caller: Id, id: Id): (r: Reply<nat>)
    ensures FindPdf(pdfs, id).None? <==> r == Err(404, "PDF not found")
    ensures r.Ok? <==> FindPdf(pdfs, id).Some? && IsOwner(pdfs[FindPdf(pdfs, id).value], caller)
    ensures r.Ok? ==> r == Ok(200, FindPdf(pdfs, id).value)
    ensures r.Err? && r.status != 404 ==> r == Err(403, "Unauthorized")
  {
    match FindPdf(pdfs, id)
    case None => Err(404, "PDF not found")
    case Some(i) => if pdfs[i].uploadedBy != caller then Err(403, "Unauthorized") else Ok(200, i)
  }

  function FindPdf(pdfs: seq<Pdf>, id: Id): (r: Option<nat>)
    ensures r.Some? ==> r.value < |pdfs| && pdfs[r.value].id == id
    ensures r.None? <==> forall k | 0 <= k < |pdfs| :: pdfs[k].id != id
  {
    IndexWhere(pdfs, (p: Pdf) => p.id == id)
  }

  function FindComment(comments: seq<Comment>, id: Id): (r: Option<nat>)
    ensures r.Some? ==> r.value < |comments| && comments[r.value].id == id
    ensures r.None? <==> forall k | 0 <= k < |comments| :: comments[k].id != id
  {
    IndexWhere(comments, (c: Comment) => c.id == id)
  }

  function FindUser(users: seq<User>, id: Id): (r: Option<nat>)
    ensures r.Some? ==> r.value < |users| && users[r.value].id == id
    ensures r.None? <==> forall k | 0 <= k < |users| :: users[k].id != id
  {
    IndexWhere(users, (u: User) => u.id == id)
  }

  /** `User.findOne({ email })`: the first user, in table order, with this email. */
  function FindUserByEmail(users: seq<User>, email: string): (r: Option<nat>)
    ensures r.Some? ==> r.value < |users| && users[r.value].email == email
    ensures r.Some? ==> forall k | 0 <= k < r.value :: users[k].email != email
    ensures r.None? <==> forall k | 0 <= k < |users| :: users[k].email != email
  {
    IndexWhere(users, (u: User) => u.email == email)
  }

  /** `User.findOne({ userName })` found someone. */
  predicate UserNameTaken(users: seq<User>, userName: string) {
    exists k | 0 <= k < |users| :: users[k].userName == userName
  }

  predicate UniquePdfIds(pdfs: seq<Pdf>) {
    forall j, k | 0 <= j < k < |pdfs| :: pdfs[j].id != pdfs[k].id
  }

  predicate UniqueCommentIds(comments: seq<Comment>) {
    forall j, k | 0 <= j < k < |comments| :: comments[j].id != comments[k].id
  }

  predicate UniqueUserIds(users: seq<User>) {
    forall j, k | 0 <= j < k < |users| :: users[j].id != users[k].id
  }

  /** The ids of a pdf table, in order. */
  function PdfIds(pdfs: seq<Pdf>): (r: seq<Id>)
    ensures |r| == |pdfs| && forall k | 0 <= k < |pdfs| :: r[k] == pdfs[k].id
  {
    seq(|pdfs|, k requires 0 <= k < |pdfs| => pdfs[k].id)
  }

  lemma PdfIdsFind(pdfs: seq<Pdf>, id: Id)
    ensures id in PdfIds(pdfs) <==> FindPdf(pdfs, id).Some?
  {
    if FindPdf(pdfs, id).Some? {
      assert PdfIds(pdfs)[FindPdf(pdfs, id).value] == id;
    }
  }

  // ---- the comment cascade of the pre-deleteOne hook ----

  function NotOn(pdfId: Id): Comment -> bool {
    (c: Comment) => c.pdf != pdfId
  }

  /** What the hook is meant to do: `Comment.deleteMany({ pdf: pdfId })`. */
  function CascadeComments(comments: seq<Comment>, pdfId: Id): (r: seq<Comment>)
    ensures forall k | 0 <= k < |r| :: r[k].pdf != pdfId && r[k] in comments
    ensures forall k | 0 <= k < |comments| :: comments[k].pdf != pdfId ==> comments[k] in r
    ensures IsSubsequence(r, comments)
  {
    Filter(comments, NotOn(pdfId))
  }

  /** The outcome of running the pre-deleteOne hook. */
  datatype HookOutcome = HookDone(comments: seq<Comment>) | HookThrew(name: string, message: string)

  /** The hook as written: its body names `Comment`, which the schema file
      never imports, so evaluating it throws a ReferenceError before
      `deleteMany` or `next()` runs. */
  function PreDeleteOneAsWritten(comments: seq<Comment>, pdfId: Id): (r: HookOutcome)
    ensures r.HookThrew? && r.name == "ReferenceError"
  {
    HookThrew("ReferenceError", "Comment is not defined")
  }

  /** The hook with the comment model in scope: the cascade runs, removing
      exactly the comments on the pdf and keeping the others in order. */
  function PreDeleteOne(comments: seq<Comment>, pdfId: Id): (r: HookOutcome)
    ensures r.HookDone?
    ensures forall k | 0 <= k < |r.comments| :: r.comments[k].pdf != pdfId && r.comments[k] in comments
    ensures forall k | 0 <= k < |comments| :: comments[k].pdf != pdfId ==> comments[k] in r.comments
    ensures IsSubsequence(r.comments, comments)
  {
    HookDone(CascadeComments(comments, pdfId))
  }
}
