/** The upload dialog of client/src/components/UploadPdfModal.jsx: choosing
    a file (the type check and the default title), and submitting it (the
    title sent, the reset after success). */
module UploadModal {
  import opened Seqs
  import opened Text
  import opened Http
  import opened ClientValues
  import opened Upload
  import ErrorHandler
  import Routes
  import PdfController
  import Records

  /** A `File` of the picker: its name, its `type` and its size in bytes. */
  datatype SelectedFile = SelectedFile(name: string, mimeType: string, size: nat)

  // ---- the default title ----

  /** The regular expression `/\.[^/.]+$/` matches at `k`: a `.` there,
      followed by one or more characters up to the end, none of them `.`
      or `/`. */
  predicate ExtensionAt(name: string, k: int) {
    && 0 <= k < |name| - 1 && name[k] == '.'
    && forall j | k < j < |name| :: name[j] != '.' && name[j] != '/'
  }

  /** `name.replace(/\.[^/.]+$/, "")` */
  function DefaultTitle(name: string): (r: string)
    ensures forall k | 0 <= k < |name| :: ExtensionAt(name, k) ==> r == name[..k]
    ensures (forall k | 0 <= k < |name| :: !ExtensionAt(name, k)) ==> r == name
  {
    match LastIndexOf(name, '.')
    case None => name
    case Some(k) =>
      if k + 1 < |name| && '/' !in name[k + 1..] then
        ExtensionIsLastDot(name, k);
        name[..k]
      else
        NoExtension(name, k);
        name
  }

  /** A match can only start at the last `.`. */
  lemma ExtensionIsLastDot(name: string, k: nat)
    requires k < |name| && name[k] == '.' && '.' !in name[k + 1..]
    requires k + 1 < |name| && '/' !in name[k + 1..]
    ensures ExtensionAt(name, k)
    ensures forall m | 0 <= m < |name| :: ExtensionAt(name, m) ==> m == k
  {
    var rest := name[k + 1..];
    forall j | k < j < |name| ensures name[j] != '.' && name[j] != '/' {
      assert rest[j - k - 1] == name[j];
    }
  }

  lemma NoExtension(name: string, k: nat)
    requires k < |name| && name[k] == '.' && '.' !in name[k + 1..]
    requires !(k + 1 < |name| && '/' !in name[k + 1..])
    ensures forall m | 0 <= m < |name| :: !ExtensionAt(name, m)
  {
    var rest := name[k + 1..];
    forall m | 0 <= m < |name| ensures !ExtensionAt(name, m) {
      if m > k {
        assert rest[m - k - 1] == name[m];
      } else if m == k && k + 1 < |name| {
        var t :| 0 <= t < |rest| && rest[t] == '/';
        assert name[k + 1 + t] == '/';
      }
    }
  }

  /** Only the last extension goes; a leading dot is an extension too; a
      name whose last `.` ends it, or is followed by a `/`, is kept. */
  lemma DefaultTitleExamples()
    ensures DefaultTitle("a.tar.gz") == "a.tar"
    ensures DefaultTitle(".bashrc") == ""
    ensures DefaultTitle("notes") == "notes"
    ensures DefaultTitle("draft.") == "draft."
    ensures DefaultTitle("v1.2/readme") == "v1.2/readme"
  {
    assert ExtensionAt("a.tar.gz", 5);
    assert ExtensionAt(".bashrc", 0);
    NoDot("notes");
    assert !ExtensionAt("draft.", 5);
    NoExtension("draft.", 5);
    NoExtension("v1.2/readme", 2);
  }

  lemma NoDot(name: string)
    requires '.' !in name
    ensures forall k | 0 <= k < |name| :: !ExtensionAt(name, k)
  {
  }

  // ---- the dialog ----

  const NotPdfFile := "Please select a valid PDF file"
  const NoFile := "Please select a PDF file"
  const Uploaded := "PDF uploaded successfully"
  const UploadFailed := "Failed to upload PDF"

  /** The multipart request of handleSubmit: the file under `field`, and
      the title. */
  datatype UploadRequest = UploadRequest(path: seq<string>, field: string, file: SelectedFile, title: string)

  /** `title || file.name` */
  function SubmittedTitle(title: string, f: SelectedFile): (r: string)
    ensures title != "" ==> r == title
    ensures title == "" ==> r == f.name
  {
    if title != "" then title else f.name
  }

  /** The dialog's `title`, `file`, `isUploading` and `uploadProgress`
      state, and the file input's current selection (`picker`). */
  class UploadForm {
    var title: string
    var file: Option<SelectedFile>
    var uploading: bool
    var progress: nat
    var picker: Option<SelectedFile>

    constructor ()
      ensures title == "" && file.None? && !uploading && progress == 0 && picker.None?
    {
      title := "";
      file := None;
      uploading := false;
      progress := 0;
      picker := None;
    }

    /** handleFileChange with the picker's first file: a pdf becomes the
        file, and names the title when it was empty; anything else leaves
        file and title, clears the input and shows a toast. */
    method FileChange(selected: Option<SelectedFile>) returns (toast: string)
      modifies this
      ensures selected.Some? && selected.value.mimeType == PdfMimeType ==>
                && file == selected && picker == selected && toast == ""
                && title == (if old(title) == "" then DefaultTitle(selected.value.name) else old(title))
      ensures !(selected.Some? && selected.value.mimeType == PdfMimeType) ==>
                && file == old(file) && title == old(title) && picker.None? && toast == NotPdfFile
      ensures uploading == old(uploading) && progress == old(progress)
    {
      picker := selected;
      if selected.Some? && selected.value.mimeType == PdfMimeType {
        file := selected;
        if title == "" {
          title := DefaultTitle(selected.value.name);
        }
        toast := "";
      } else {
        toast := NotPdfFile;
        picker := None;
      }
    }

    method TypeTitle(text: string)
      modifies this
      ensures title == text
      ensures file == old(file) && uploading == old(uploading) && progress == old(progress) && picker == old(picker)
    {
      title := text;
    }

    /** handleSubmit. `outcome` is the server's answer to the request, and
        `reported` the last percentage the progress events set (0 when
        none). Without a file nothing is sent. */
    method Submit(outcome: Outcome<Records.Pdf>, reported: nat) returns (sent: Option<UploadRequest>, toast: string)
      modifies this
      ensures old(file).None? ==>
                && sent.None? && toast == NoFile
                && title == old(title) && file == old(file) && uploading == old(uploading) && progress == old(progress)
      ensures old(file).Some? ==>
                && sent == Some(UploadRequest(Routes.PdfsApi + ["upload"], Routes.UploadField, old(file).value,
                                              SubmittedTitle(old(title), old(file).value)))
                && !uploading
      ensures old(file).Some? && outcome.Succeeded? ==>
                title == "" && file.None? && progress == 0 && toast == Uploaded
      ensures old(file).Some? && outcome.Rejected? ==>
                && title == old(title) && file == old(file) && progress == reported
                && toast == ToastText(outcome.data, UploadFailed)
      ensures picker == old(picker)
    {
      if file.None? {
        sent := None;
        toast := NoFile;
        return;
      }
      var f := file.value;
      sent := Some(UploadRequest(Routes.PdfsApi + ["upload"], Routes.UploadField, f, SubmittedTitle(title, f)));
      uploading := true;
      progress := reported;
      match outcome {
        case Succeeded(_) =>
          toast := Uploaded;
          title := "";
          file := None;
          progress := 0;
        case Rejected(data) =>
          toast := ToastText(data, UploadFailed);
      }
      uploading := false;
    }
  }

  // ---- against the server ----

  /** The part the server's upload step receives for a request. */
  function PartOf(req: UploadRequest): IncomingFile {
    IncomingFile(req.field, req.file.name, req.file.mimeType, req.file.size)
  }

  /** The dialog's type check is the server's filter. */
  lemma ClientCheckIsServerFilter(f: SelectedFile)
    ensures f.mimeType == PdfMimeType <==> FileFilter(f.mimeType).None?
  {
  }

  /** A pdf of at most 10 MB passes the upload step under the field the
      route expects, and the title the server stores is the one sent. */
  lemma SentPdfIsStoredWithSentTitle(f: SelectedFile, title: string, now: nat)
    requires f.mimeType == PdfMimeType && f.size <= MaxFileSize
    ensures var req := UploadRequest(Routes.PdfsApi + ["upload"], Routes.UploadField, f, SubmittedTitle(title, f));
            var step := Routes.UploadStep(Some(PartOf(req)), now);
            && step.Ok? && step.value.Some?
            && PdfController.UploadTitle(req.title, step.value.value) == req.title
  {
  }

  /** A pdf over the limit is refused by the upload step as written, and the
      toast shows the error handler's message, which it sends under
      `message`: the 50MB text, although the limit is 10 MB. */
  lemma TooLargeToast(f: SelectedFile, title: string, now: nat)
    requires f.mimeType == PdfMimeType && f.size > MaxFileSize
    ensures var req := UploadRequest(Routes.PdfsApi + ["upload"], Routes.UploadField, f, SubmittedTitle(title, f));
            var step := Routes.UploadStep(Some(PartOf(req)), now);
            && step == Err(400, "File too large. Maximum size is 50MB.")
            && ToastText(Received(step, MessageKey).data, UploadFailed) == "File too large. Maximum size is 50MB."
  {
  }

  /** With the corrected error middleware the same toast states the
      configured limit. */
  lemma TooLargeToastCorrected(f: SelectedFile, title: string, now: nat)
    requires f.mimeType == PdfMimeType && f.size > MaxFileSize
    ensures var req := UploadRequest(Routes.PdfsApi + ["upload"], Routes.UploadField, f, SubmittedTitle(title, f));
            var step := Routes.UploadStepCorrected(Some(PartOf(req)), now);
            && step == Err(400, "File too large. Maximum size is " + ErrorHandler.MaxFileSizeText + ".")
            && ToastText(Received(step, MessageKey).data, UploadFailed) == step.message
  {
  }
}
