/** The error-handling middleware of server/server.js: from a thrown error
    to the status and message sent. As written it looks for a message the
    upload filter never produces and quotes a size limit the upload step
    does not use; HandleError is the mapping with both corrected. */
module ErrorHandler {
  import opened Seqs
  import opened Http
  import opened Upload

  const LegacyNotPdfMessage := "Only PDF files are allowed!"

  /** The middleware as written. */
  function HandleErrorAsWritten(err: AppError): (r: Reply<()>)
    ensures r.Err?
    ensures err.name == "MulterError" && err.code == "LIMIT_FILE_SIZE" ==> r == Err(400, "File too large. Maximum size is 50MB.")
    ensures err.name == "MulterError" && err.code != "LIMIT_FILE_SIZE" ==> r == Err(400, "Upload error: " + err.message)
    ensures err.name != "MulterError" && err.message == LegacyNotPdfMessage ==> r == Err(400, "Only PDF files are allowed")
    ensures err.name != "MulterError" && err.message != LegacyNotPdfMessage ==>
              r == Err(500, if err.message != "" then err.message else "Internal Server Error")
  {
    if err.name == "MulterError" then
      if err.code == "LIMIT_FILE_SIZE" then Err(400, "File too large. Maximum size is 50MB.")
      else Err(400, "Upload error: " + err.message)
    else if err.message == LegacyNotPdfMessage then Err(400, "Only PDF files are allowed")
    else Err(500, if err.message != "" then err.message else "Internal Server Error")
  }

  /** The defect: a file the upload filter rejects is answered as a server
      failure (500), with the filter's own message. */
  lemma RejectedFileIsServerErrorAsWritten(mimetype: string)
    requires mimetype != PdfMimeType
    ensures HandleErrorAsWritten(FileFilter(mimetype).value) == Err(500, NotPdfMessage)
  {
  }

  /** The defect: the size reply names 50MB while the limit is 10 MB. */
  lemma SizeMessageMisstatesLimit()
    ensures HandleErrorAsWritten(TooLarge) == Err(400, "File too large. Maximum size is 50MB.")
    ensures MaxFileSize == 10 * 1024 * 1024 && MaxFileSize < 50 * 1024 * 1024
  {
  }

  /** The size limit in whole megabytes, for the reply. */
  const MaxFileSizeText := "10MB"

  /** The middleware matching what the upload step raises: the filter's
      message and the configured limit. Everything else is as written. */
  function HandleError(err: AppError): (r: Reply<()>)
    ensures r.Err?
    ensures err.name == "MulterError" && err.code == "LIMIT_FILE_SIZE" ==>
              r == Err(400, "File too large. Maximum size is " + MaxFileSizeText + ".")
    ensures err.name == "MulterError" && err.code != "LIMIT_FILE_SIZE" ==> r == HandleErrorAsWritten(err)
    ensures err.name != "MulterError" && (err.message == NotPdfMessage || err.message == LegacyNotPdfMessage) ==>
              r == Err(400, "Only PDF files are allowed")
    ensures err.name != "MulterError" && err.message != NotPdfMessage ==> r == HandleErrorAsWritten(err)
  {
    if err.name == "MulterError" && err.code == "LIMIT_FILE_SIZE" then
      Err(400, "File too large. Maximum size is " + MaxFileSizeText + ".")
    else if err.name != "MulterError" && err.message == NotPdfMessage then Err(400, "Only PDF files are allowed")
    else HandleErrorAsWritten(err)
  }

  /** Every rejection of the upload step is answered with 400: a client
      error, never a server failure. */
  lemma UploadRejectionsAreClientErrors(field: string, part: Option<IncomingFile>, now: nat)
    requires SingleUpload(field, part, now).Rejected?
    ensures HandleError(SingleUpload(field, part, now).error).Err?
    ensures HandleError(SingleUpload(field, part, now).error).status == 400
  {
  }

  /** As written, the same rejections do not all get 400: a wrong file type reaches 500. */
  lemma UploadRejectionAsWrittenCanBe500()
    ensures var part := Some(IncomingFile("pdf", "notes.txt", "text/plain", 12));
            SingleUpload("pdf", part, 0).Rejected? &&
            HandleErrorAsWritten(SingleUpload("pdf", part, 0).error).status == 500
  {
  }
}
