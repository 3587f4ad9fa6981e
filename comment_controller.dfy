/** server/controllers/commentController.js: the comment list, and the
    guards the three comment-changing handlers run before they touch the
    store. The changes themselves are methods of Database.Database. */
module CommentController {
  import opened Seqs
  import opened Sorting
  import opened Records
  import opened Http

  function OnPdf(pdfId: Id): Comment -> bool {
    (c: Comment) => c.pdf == pdfId
  }

  /** `.sort({ createdAt: 1 })` */
  predicate OldestFirst(a: Comment, b: Comment) {
    a.createdAt <= b.createdAt
  }

  lemma OldestFirstTotal()
    ensures Total(OldestFirst)
  {
  }

  /** GET /api/pdf/:pdfId/comments (no authentication): 404 for an unknown
      pdf, otherwise exactly the comments on it, oldest first. */
  function GetComments(pdfs: seq<Pdf>, comments: seq<Comment>, pdfId: Id): (r: Reply<seq<Comment>>)
    ensures FindPdf(pdfs, pdfId).None? <==> r == Err(404, "PDF not found")
    ensures r.Ok? ==> r.status == 200
    ensures r.Ok? ==> multiset(r.value) == multiset(Filter(comments, OnPdf(pdfId)))
    ensures r.Ok? ==> forall k | 0 <= k < |r.value| :: r.value[k].pdf == pdfId && r.value[k] in comments
    ensures r.Ok? ==> forall k | 0 <= k < |comments| :: comments[k].pdf == pdfId ==> comments[k] in r.value
    ensures r.Ok? ==> forall k | 0 < k < |r.value| :: r.value[k - 1].createdAt <= r.value[k].createdAt
  {
    if FindPdf(pdfs, pdfId).None? then Err(404, "PDF not found")
    else
      var mine := Filter(comments, OnPdf(pdfId));
      var sorted := SortBy(mine, OldestFirst);
      OldestFirstTotal();
      CommentListFacts(comments, pdfId, mine, sorted);
      Ok(200, sorted)
  }

  lemma CommentListFacts(comments: seq<Comment>, pdfId: Id, mine: seq<Comment>, sorted: seq<Comment>)
    requires Total(OldestFirst)
    requires mine == Filter(comments, OnPdf(pdfId))
    requires sorted == SortBy(mine, OldestFirst)
    ensures forall k | 0 <= k < |sorted| :: sorted[k].pdf == pdfId && sorted[k] in comments
    ensures forall k | 0 <= k < |comments| :: comments[k].pdf == pdfId ==> comments[k] in sorted
    ensures forall k | 0 < k < |sorted| :: sorted[k - 1].createdAt <= sorted[k].createdAt
  {
    forall k | 0 <= k < |sorted| ensures sorted[k].pdf == pdfId && sorted[k] in comments {
      SortedMembers(mine, OldestFirst, sorted[k]);
      var j :| 0 <= j < |mine| && mine[j] == sorted[k];
      assert OnPdf(pdfId)(mine[j]);
    }
    forall k | 0 <= k < |comments| && comments[k].pdf == pdfId ensures comments[k] in sorted {
      assert OnPdf(pdfId)(comments[k]);
      SortedMembers(mine, OldestFirst, comments[k]);
    }
    forall k | 0 < k < |sorted| ensures sorted[k - 1].createdAt <= sorted[k].createdAt {
      assert OldestFirst(sorted[k - 1], sorted[k]);
    }
  }

  /** createComment's checks, in order: text (400), pdf (404), access (403).
      On success, the position of the pdf. */
  function CreateCheck(pdfs: seq<Pdf>, caller: Id, pdfId: Id, text: string): (r: Reply<nat>)
    ensures text == "" ==> r == Err(400, "Text is required")
    ensures text != "" && FindPdf(pdfs, pdfId).None? ==> r == Err(404, "PDF not found")
    ensures r.Ok? <==> text != "" && FindPdf(pdfs, pdfId).Some? && CanComment(pdfs[FindPdf(pdfs, pdfId).value], caller)
    ensures r.Ok? ==> r.value == FindPdf(pdfs, pdfId).value
    ensures r.Err? && r.status != 400 && r.status != 404 ==> r == Err(403, "No access to this PDF")
  {
    if text == "" then Err(400, "Text is required")
    else match FindPdf(pdfs, pdfId)
      case None => Err(404, "PDF not found")
      case Some(i) =>
        if !HasGrant(pdfs[i].sharedWith, caller) && !IsOwner(pdfs[i], caller) then Err(403, "No access to this PDF")
        else Ok(201, i)
  }

  /** The owner may always comment on their pdf, with or without a grant. */
  lemma OwnerMayComment(pdfs: seq<Pdf>, caller: Id, pdfId: Id, text: string)
    requires text != "" && OwnedPdf(pdfs, caller, pdfId).Ok?
    ensures CreateCheck(pdfs, caller, pdfId, text).Ok?
  {
  }

  /** updateComment's checks: text (400), comment (404), authorship (403). */
  function UpdateCheck(comments: seq<Comment>, caller: Id, commentId: Id, text: string): (r: Reply<nat>)
    ensures text == "" ==> r == Err(400, "Text is required")
    ensures text != "" && FindComment(comments, commentId).None? ==> r == Err(404, "Comment not found")
    ensures r.Ok? <==> text != "" && FindComment(comments, commentId).Some? && comments[FindComment(comments, commentId).value].user == caller
    ensures r.Ok? ==> r.value == FindComment(comments, commentId).value
    ensures r.Err? && r.status != 400 && r.status != 404 ==> r == Err(403, "Not authorized to update this comment")
  {
    if text == "" then Err(400, "Text is required")
    else match FindComment(comments, commentId)
      case None => Err(404, "Comment not found")
      case Some(k) =>
        if comments[k].user != caller then Err(403, "Not authorized to update this comment")
        else Ok(200, k)
  }

  /** deleteComment's checks: comment (404), authorship (403). The pdf's
      owner is not the comment's author and is refused like anyone else. */
  function DeleteCheck(comments: seq<Comment>, caller: Id, commentId: Id): (r: Reply<nat>)
    ensures FindComment(comments, commentId).None? <==> r == Err(404, "Comment not found")
    ensures r.Ok? <==> FindComment(comments, commentId).Some? && comments[FindComment(comments, commentId).value].user == caller
    ensures r.Ok? ==> r.value == FindComment(comments, commentId).value
    ensures r.Err? && r.status != 404 ==> r == Err(403, "Not authorized to delete this comment")
  {
    match FindComment(comments, commentId)
    case None => Err(404, "Comment not found")
    case Some(k) =>
      if comments[k].user != caller then Err(403, "Not authorized to delete this comment")
      else Ok(200, k)
  }

  /** Only the author gets past either check: whoever passes one passes the
      other as well (given text). */
  lemma AuthorshipDecidesBoth(comments: seq<Comment>, caller: Id, commentId: Id, text: string)
    requires text != ""
    ensures UpdateCheck(comments, caller, commentId, text).Ok? <==> DeleteCheck(comments, caller, commentId).Ok?
  {
  }
}
