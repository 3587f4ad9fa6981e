/** server/config/multerConfig.js: the single-file upload step that runs on
    POST /api/pdfs/upload, with its PDF-only filter, its 10 MB limit and the
    name the file is stored under. Writing the file to disk is not modelled.
    The order of the three rejections (unexpected field name, filter, size)
    is multer's: the field name and the filter are checked when the part
    starts, the size while it streams. */
module Upload {
  import opened Seqs
  import opened Text
  import opened Http

  const PdfMimeType := "application/pdf"

  /** `limits: { fileSize: 10 * 1024 * 1024 }` */
  const MaxFileSize: nat := 10 * 1024 * 1024

  /** The message of the error the filter passes to its callback. */
  const NotPdfMessage := "Only PDF files allowed"

  /** A file part of a multipart request. */
  datatype IncomingFile = IncomingFile(fieldName: string, originalname: string, mimetype: string, size: nat)

  /** `req.file` after a successful upload step. */
  datatype StoredFile = StoredFile(originalname: string, mimetype: string, size: nat, filename: string)

  /** `fileFilter`: None accepts; otherwise the error it rejects with. */
  function FileFilter(mimetype: string): (r: Option<AppError>)
    ensures r.None? <==> mimetype == PdfMimeType
    ensures r.Some? ==> r.value == AppError("Error", "", NotPdfMessage)
  {
    if mimetype == PdfMimeType then None else Some(AppError("Error", "", NotPdfMessage))
  }

  /** `${Date.now()}-${file.originalname}` */
  function StoredFilename(now: nat, originalname: string): (r: string)
    ensures StartsWith(r, NatToString(now))
  {
    NatToString(now) + "-" + originalname
  }

  /** The timestamp is all digits, so the first `-` of a stored name is the
      separator and the original name is everything after it. */
  lemma StoredFilenameRoundTrip(now: nat, originalname: string)
    ensures var f := StoredFilename(now, originalname);
            IndexOf(f, '-') == Some(|NatToString(now)|) && f[|NatToString(now)| + 1..] == originalname
  {
    var d := NatToString(now);
    var f := StoredFilename(now, originalname);
    assert f[..|d|] == d;
    assert forall i | 0 <= i < |d| :: f[i] == d[i] != '-';
    assert f[|d|] == '-';
    IndexOfAt(f, '-', |d|);
    assert f[|d| + 1..] == originalname;
  }

  datatype UploadOutcome = Rejected(error: AppError) | Accepted(file: Option<StoredFile>)

  const UnexpectedField := AppError("MulterError", "LIMIT_UNEXPECTED_FILE", "Unexpected field")
  const TooLarge := AppError("MulterError", "LIMIT_FILE_SIZE", "File too large")

  /** `upload.single(field)` on a request carrying at most one file part.
      A request with no file passes, with no `req.file`. */
  function SingleUpload(field: string, part: Option<IncomingFile>, now: nat): (r: UploadOutcome)
    ensures part.None? ==> r == Accepted(None)
    ensures part.Some? && part.value.fieldName != field ==> r == Rejected(UnexpectedField)
    ensures part.Some? && part.value.fieldName == field && part.value.mimetype != PdfMimeType
            ==> r == Rejected(FileFilter(part.value.mimetype).value)
    ensures part.Some? && part.value.fieldName == field && part.value.mimetype == PdfMimeType && part.value.size > MaxFileSize
            ==> r == Rejected(TooLarge)
    ensures r.Accepted? && r.file.Some? ==>
              && part.Some? && part.value.mimetype == PdfMimeType && part.value.size <= MaxFileSize
              && r.file.value == StoredFile(part.value.originalname, part.value.mimetype, part.value.size,
                                            StoredFilename(now, part.value.originalname))
    ensures r.Accepted? ==> (r.file.Some? <==> part.Some?)
  {
    match part
    case None => Accepted(None)
    case Some(f) =>
      if f.fieldName != field then Rejected(UnexpectedField)
      else match FileFilter(f.mimetype)
        case Some(e) => Rejected(e)
        case None =>
          if f.size > MaxFileSize then Rejected(TooLarge)
          else Accepted(Some(StoredFile(f.originalname, f.mimetype, f.size, StoredFilename(now, f.originalname))))
  }
}
