/** The read handlers of server/controllers/pdfController.js, and deletePdf
    as the code stands (its comment cascade throws). uploadPdf, updatePdf and
    the corrected deletePdf change the store and are methods of
    Database.Database. */
module PdfController {
  import opened Seqs
  import opened Records
  import opened Http
  import opened Upload

  function OwnedBy(uid: Id): Pdf -> bool {
    (p: Pdf) => p.uploadedBy == uid
  }

  /** GET /api/pdfs/my-pdfs: the caller's pdfs, in table order. */
  function GetMyPdfs(pdfs: seq<Pdf>, caller: Id): (r: seq<Pdf>)
    ensures forall k | 0 <= k < |r| :: r[k].uploadedBy == caller && r[k] in pdfs
    ensures forall i | 0 <= i < |pdfs| :: pdfs[i].uploadedBy == caller ==> pdfs[i] in r
    ensures IsSubsequence(r, pdfs)
  {
    var r := Filter(pdfs, OwnedBy(caller));
    assert forall k | 0 <= k < |r| :: OwnedBy(caller)(r[k]);
    assert forall i | 0 <= i < |pdfs| :: pdfs[i].uploadedBy == caller ==> OwnedBy(caller)(pdfs[i]);
    r
  }

  /** A pdf merely shared with the caller is not theirs. */
  lemma SharedPdfNotMine(pdfs: seq<Pdf>, caller: Id, i: nat)
    requires i < |pdfs| && HasGrant(pdfs[i].sharedWith, caller) && !IsOwner(pdfs[i], caller)
    requires UniquePdfIds(pdfs)
    ensures forall k | 0 <= k < |GetMyPdfs(pdfs, caller)| :: GetMyPdfs(pdfs, caller)[k].id != pdfs[i].id
  {
    var r := GetMyPdfs(pdfs, caller);
    forall k | 0 <= k < |r| ensures r[k].id != pdfs[i].id {
      var j :| 0 <= j < |pdfs| && pdfs[j] == r[k];
      assert j != i;
    }
  }

  /** GET /api/pdfs/:id: the whole document, to its owner only. */
  function GetPdfDetails(pdfs: seq<Pdf>, caller: Id, id: Id): (r: Reply<Pdf>)
    ensures FindPdf(pdfs, id).None? <==> r == Err(404, "PDF not found")
    ensures r.Ok? <==> FindPdf(pdfs, id).Some? && IsOwner(pdfs[FindPdf(pdfs, id).value], caller)
    ensures r.Ok? ==> r == Ok(200, pdfs[FindPdf(pdfs, id).value]) && r.value.id == id
    ensures r.Err? && r.status != 404 ==> r == Err(403, "Unauthorized")
  {
    match OwnedPdf(pdfs, caller, id)
    case Err(status, message) => Err(status, message)
    case Ok(_, i) => Ok(200, pdfs[i])
  }

  /** A grant opens the viewing endpoints but not the details endpoint. */
  lemma GranteeRefusedDetails(pdfs: seq<Pdf>, caller: Id, id: Id)
    requires FindPdf(pdfs, id).Some?
    requires !IsOwner(pdfs[FindPdf(pdfs, id).value], caller)
    ensures GetPdfDetails(pdfs, caller, id) == Err(403, "Unauthorized")
  {
  }

  // ---- uploadPdf ----

  /** What `uploadToDrive(req.file)` returns, or that it threw. */
  datatype DriveUpload = Uploaded(fileId: string, viewLink: string) | UploadFailed

  /** `req.body.title || req.file.originalname` */
  function UploadTitle(bodyTitle: string, file: StoredFile): (r: string)
    ensures r == bodyTitle || (bodyTitle == "" && r == file.originalname)
  {
    if bodyTitle != "" then bodyTitle else file.originalname
  }

  /** uploadPdf up to `pdf.save()`: no file (400), Drive failure (500), the
      new record, and the schema's validation of it (500). On success, the
      record to insert. */
  function UploadCheck(file: Option<StoredFile>, bodyTitle: string, drive: DriveUpload,
                       caller: Id, newId: Id, now: nat): (r: Reply<Pdf>)
    ensures file.None? <==> r == Err(400, "PDF file is required")
    ensures file.Some? && drive.UploadFailed? ==> r == Err(500, ServerError)
    ensures r.Err? && r.status != 400 ==> r == Err(500, ServerError)
    ensures r.Ok? ==> r.status == 201 && file.Some? && drive.Uploaded? && ValidPdf(r.value)
    ensures r.Ok? ==> && r.value.id == newId && r.value.uploadedBy == caller
                      && r.value.title == UploadTitle(bodyTitle, file.value)
                      && r.value.fileId == drive.fileId && r.value.fileUrl == drive.viewLink
                      && r.value.publicAccessToken.None? && r.value.sharedWith == []
                      && r.value.createdAt == r.value.updatedAt == now
    ensures file.Some? && drive.Uploaded? ==>
              (r.Ok? <==> UploadTitle(bodyTitle, file.value) != "" && drive.fileId != "" && drive.viewLink != "" && caller != "")
  {
    match file
    case None => Err(400, "PDF file is required")
    case Some(f) =>
      match drive
      case UploadFailed => Err(500, ServerError)
      case Uploaded(fileId, viewLink) =>
        var record := Pdf(newId, UploadTitle(bodyTitle, f), fileId, viewLink, caller, None, [], now, now);
        if !ValidPdf(record) then Err(500, ServerError) else Ok(201, record)
  }

  /** A body title wins over the file name; an empty one falls back to it. */
  lemma UploadTitleChoice(f: StoredFile, fileId: string, viewLink: string, caller: Id, newId: Id, now: nat)
    requires f.originalname != "" && fileId != "" && viewLink != "" && caller != ""
    ensures UploadCheck(Some(f), "", Uploaded(fileId, viewLink), caller, newId, now).value.title == f.originalname
    ensures UploadCheck(Some(f), "report", Uploaded(fileId, viewLink), caller, newId, now).value.title == "report"
  {
  }

  // ---- updatePdf ----

  /** updatePdf's steps before the change: ownership (404, 403), the Drive
      rename (500 when it throws), and the schema's `required` title (500
      when the body has none). On success, the position of the pdf. */
  function UpdateCheck(pdfs: seq<Pdf>, caller: Id, id: Id, title: string, driveOk: bool): (r: Reply<nat>)
    ensures var o := OwnedPdf(pdfs, caller, id);
            o.Err? ==> r == Err(o.status, o.message)
    ensures OwnedPdf(pdfs, caller, id).Ok? && (!driveOk || title == "") ==> r == Err(500, ServerError)
    ensures r.Ok? <==> OwnedPdf(pdfs, caller, id).Ok? && driveOk && title != ""
    ensures r.Ok? ==> r == OwnedPdf(pdfs, caller, id)
  {
    match OwnedPdf(pdfs, caller, id)
    case Err(status, message) => Err(status, message)
    case Ok(_, i) =>
      if !driveOk then Err(500, ServerError)
      else if title == "" then Err(500, ServerError)
      else Ok(200, i)
  }

  /** What a delete leaves behind: the reply, both tables and whether the
      file is gone from Drive. */
  datatype DeleteEffect = DeleteEffect(reply: Reply<string>, pdfs: seq<Pdf>, comments: seq<Comment>, driveFileDeleted: bool)

  /** DELETE /api/pdfs/:id as written: after the ownership check, the Drive
      file is deleted (`driveOk` is whether that call succeeds), then
      `pdf.deleteOne()` runs the pre-deleteOne hook, which throws; the
      handler's catch sends 500 and the record stays. */
  function DeletePdfAsWritten(pdfs: seq<Pdf>, comments: seq<Comment>, caller: Id, id: Id, driveOk: bool): (r: DeleteEffect)
    ensures r.pdfs == pdfs && r.comments == comments
    ensures OwnedPdf(pdfs, caller, id).Err? ==> r.reply == Err(OwnedPdf(pdfs, caller, id).status, OwnedPdf(pdfs, caller, id).message) && !r.driveFileDeleted
    ensures OwnedPdf(pdfs, caller, id).Ok? ==> r.reply == Err(500, ServerError)
    ensures r.driveFileDeleted <==> OwnedPdf(pdfs, caller, id).Ok? && driveOk
  {
    match OwnedPdf(pdfs, caller, id)
    case Err(status, message) => DeleteEffect(Err(status, message), pdfs, comments, false)
    case Ok(_, _) =>
      if !driveOk then DeleteEffect(Err(500, ServerError), pdfs, comments, false)
      else match PreDeleteOneAsWritten(comments, id)
        case HookThrew(_, _) => DeleteEffect(Err(500, ServerError), pdfs, comments, true)
        case HookDone(_) => assert false; DeleteEffect(Ok(200, "PDF deleted successfully"), pdfs, comments, true)
  }

  /** The defect: an owner's delete with Drive working never succeeds, yet
      the Drive file is gone while the record still points at it. */
  lemma DeleteAsWrittenLosesFile(pdfs: seq<Pdf>, comments: seq<Comment>, caller: Id, id: Id)
    requires OwnedPdf(pdfs, caller, id).Ok?
    ensures var e := DeletePdfAsWritten(pdfs, comments, caller, id, true);
            e.reply.Err? && e.driveFileDeleted && e.pdfs == pdfs && FindPdf(e.pdfs, id).Some?
  {
  }
}
