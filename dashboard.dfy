/** The list logic of client/src/pages/Dashboard.jsx: the title search
    over the user's own pdfs and over the pdfs shared with them, and the
    list update after a delete. */
module Dashboard {
  import opened Seqs
  import opened Text
  import opened Records
  import opened ClientValues
  import PdfSharingController

  /** `title.toLowerCase().includes(query.toLowerCase())`. */
  function TitleMatches<T>(titleOf: T -> string, query: string): T -> bool {
    (x: T) => Contains(Lower(titleOf(x)), Lower(query))
  }

  /** The memoised filter: a blank query shows the whole list; any other
      query, untrimmed, keeps the entries whose title contains it, ignoring
      ASCII case, in list order. */
  function SearchByTitle<T>(items: seq<T>, titleOf: T -> string, query: string): (r: seq<T>)
    ensures IsBlank(query) ==> r == items
    ensures !IsBlank(query) ==> forall k | 0 <= k < |r| :: r[k] in items && Contains(Lower(titleOf(r[k])), Lower(query))
    ensures !IsBlank(query) ==> forall k | 0 <= k < |items| ::
              Contains(Lower(titleOf(items[k])), Lower(query)) ==> items[k] in r
    ensures IsSubsequence(r, items) && |r| <= |items|
  {
    if IsBlank(query) then SubsequenceReflexive(items); items else Filter(items, TitleMatches(titleOf, query))
  }

  function PdfTitle(p: Pdf): string {
    p.title
  }

  function SharedTitle(item: PdfSharingController.SharedItem): string {
    item.title
  }

  /** "x of y PDFs found": the count shown never exceeds the list's. */
  lemma FoundNeverExceedsTotal(pdfs: seq<Pdf>, shared: seq<PdfSharingController.SharedItem>, query: string)
    ensures |SearchByTitle(pdfs, PdfTitle, query)| <= |pdfs|
    ensures |SearchByTitle(shared, SharedTitle, query)| <= |shared|
  {
  }

  /** Searching ignores ASCII case in both the title and the query. */
  lemma SearchIgnoresCase(pdfs: seq<Pdf>, query: string)
    ensures SearchByTitle(pdfs, PdfTitle, Lower(query)) == SearchByTitle(pdfs, PdfTitle, query)
  {
    LowerIdempotent(query);
    BlankUnderLower(query);
    if !IsBlank(query) {
      assert TitleMatches(PdfTitle, Lower(query)) == TitleMatches(PdfTitle, query);
    }
  }

  lemma LowerIdempotent(s: string)
    ensures Lower(Lower(s)) == Lower(s)
  {
  }

  /** Lowering the case keeps a string blank or non-blank. */
  lemma BlankUnderLower(s: string)
    ensures IsBlank(Lower(s)) <==> IsBlank(s)
  {
    BlankIffAllSpace(s);
    BlankIffAllSpace(Lower(s));
    forall i | 0 <= i < |s| ensures IsSpace(Lower(s)[i]) <==> IsSpace(s[i]) {
      LowerCharKeepsSpace(s[i]);
    }
  }

  lemma LowerCharKeepsSpace(c: char)
    ensures IsSpace(LowerChar(c)) <==> IsSpace(c)
  {
  }

  /** What handleDeletePdf leaves: the list, and whether a DELETE request
      was sent. */
  datatype Deleted = Deleted(pdfs: seq<Pdf>, requested: bool)

  function NotId(id: Id): Pdf -> bool {
    (p: Pdf) => p.id != id
  }

  /** handleDeletePdf: a declined confirmation sends nothing; a failed
      request leaves the list; a successful one drops exactly the entries
      with that id, keeping the rest in order. */
  function HandleDeletePdf(pdfs: seq<Pdf>, id: Id, confirmed: bool, deleteOk: bool): (r: Deleted)
    ensures r.requested <==> confirmed
    ensures !(confirmed && deleteOk) ==> r.pdfs == pdfs
    ensures confirmed && deleteOk ==>
              (forall k | 0 <= k < |r.pdfs| :: r.pdfs[k].id != id && r.pdfs[k] in pdfs) &&
              (forall k | 0 <= k < |pdfs| :: pdfs[k].id != id ==> pdfs[k] in r.pdfs) &&
              IsSubsequence(r.pdfs, pdfs)
  {
    if !confirmed then Deleted(pdfs, false)
    else if !deleteOk then Deleted(pdfs, true)
    else Deleted(Filter(pdfs, NotId(id)), true)
  }

  // ---- what the page shows ----

  datatype Tab = MyPdfsTab | SharedWithMeTab

  /** The tab content, or the error that aborts the page's render. */
  datatype Screen =
    | Spinner
    | MyList(mine: seq<Pdf>)
    | SharedListing(shared: seq<PdfSharingController.SharedItem>)
    | Crashed(error: string)

  /** What fetchSharedPdfs stores: `response.data` as it arrives, which for
      GET /api/pdf-sharing/shared-with-me is the `{pdfs, count}` object. */
  function StoredSharedAsWritten(body: PdfSharingController.SharedList): (r: JsonList<PdfSharingController.SharedItem>)
    ensures r.Wrapped? && r.elems == body.pdfs
  {
    Wrapped(body.pdfs, body.count)
  }

  /** The page as written, on what `sharedPdfs` holds. Its initial value is
      an array. On the stored object, a non-blank query makes the memoised
      `.filter` throw while the page renders, whichever tab is open; with a
      blank query the object itself reaches the shared tab, where `.length`
      is undefined and `.map` throws. */
  function DashboardAsWritten(tab: Tab, pdfs: seq<Pdf>, loading: bool,
                              stored: JsonList<PdfSharingController.SharedItem>, sharedLoading: bool,
                              query: string): (r: Screen)
    ensures stored.Wrapped? && !IsBlank(query) ==> r == Crashed(TypeError)
    ensures stored.Wrapped? && tab == SharedWithMeTab && !sharedLoading ==> r == Crashed(TypeError)
    ensures stored.Array? && tab == SharedWithMeTab && !sharedLoading ==>
              r == SharedListing(SearchByTitle(stored.elems, SharedTitle, query))
    ensures (stored.Array? || IsBlank(query)) && tab == SharedWithMeTab && sharedLoading ==> r == Spinner
    ensures (stored.Array? || IsBlank(query)) && tab == MyPdfsTab ==>
              r == if loading then Spinner else MyList(SearchByTitle(pdfs, PdfTitle, query))
  {
    if stored.Wrapped? && !IsBlank(query) then Crashed(TypeError)
    else if tab == MyPdfsTab then
      if loading then Spinner else MyList(SearchByTitle(pdfs, PdfTitle, query))
    else if sharedLoading then Spinner
    else if stored.Wrapped? then Crashed(TypeError)
    else SharedListing(SearchByTitle(stored.elems, SharedTitle, query))
  }

  /** Once the server's answer has arrived, the shared tab always fails, and
      so does a search on either tab. */
  lemma SharedTabAlwaysThrowsAsWritten(tab: Tab, pdfs: seq<Pdf>, loading: bool, caller: Id, query: string)
    requires tab == SharedWithMeTab || !IsBlank(query)
    ensures DashboardAsWritten(tab, pdfs, loading,
              StoredSharedAsWritten(PdfSharingController.GetSharedWithMe(pdfs, caller)), false, query)
            == Crashed(TypeError)
  {
  }

  /** The page reading the list out of the object, as fetchSharedPdfs
      would with `response.data.pdfs`. */
  function Dashboard(tab: Tab, pdfs: seq<Pdf>, loading: bool,
                     shared: seq<PdfSharingController.SharedItem>, sharedLoading: bool,
                     query: string): (r: Screen)
    ensures !r.Crashed?
    ensures tab == MyPdfsTab ==> r == if loading then Spinner else MyList(SearchByTitle(pdfs, PdfTitle, query))
    ensures tab == SharedWithMeTab ==>
              r == if sharedLoading then Spinner else SharedListing(SearchByTitle(shared, SharedTitle, query))
  {
    DashboardAsWritten(tab, pdfs, loading, Array(shared), sharedLoading, query)
  }

  /** With the list read out of the server's answer, everything the
      shared tab lists is one of the caller's shared pdfs... */
  lemma SharedTabSound(pdfs: seq<Pdf>, caller: Id, query: string)
    ensures var shown := SearchByTitle(PdfSharingController.GetSharedWithMe(pdfs, caller).pdfs, SharedTitle, query);
            forall k | 0 <= k < |shown| ::
              exists i | 0 <= i < |pdfs| :: HasGrant(pdfs[i].sharedWith, caller) &&
                shown[k] == PdfSharingController.SharedItemOf(pdfs[i], caller)
  {
    var shown := SearchByTitle(PdfSharingController.GetSharedWithMe(pdfs, caller).pdfs, SharedTitle, query);
    forall k | 0 <= k < |shown|
      ensures exists i | 0 <= i < |pdfs| :: HasGrant(pdfs[i].sharedWith, caller) &&
                shown[k] == PdfSharingController.SharedItemOf(pdfs[i], caller)
    {
      ListedIsShared(pdfs, caller, shown[k]);
    }
  }

  /** ... and every pdf shared with the caller whose title matches is
      listed. */
  lemma SharedTabComplete(pdfs: seq<Pdf>, caller: Id, query: string, i: nat)
    requires i < |pdfs| && HasGrant(pdfs[i].sharedWith, caller)
    requires IsBlank(query) || Contains(Lower(pdfs[i].title), Lower(query))
    ensures PdfSharingController.SharedItemOf(pdfs[i], caller)
              in SearchByTitle(PdfSharingController.GetSharedWithMe(pdfs, caller).pdfs, SharedTitle, query)
  {
    var body := PdfSharingController.GetSharedWithMe(pdfs, caller);
    var item := PdfSharingController.SharedItemOf(pdfs[i], caller);
    assert item in body.pdfs;
    var k :| 0 <= k < |body.pdfs| && body.pdfs[k] == item;
    assert SharedTitle(body.pdfs[k]) == pdfs[i].title;
  }

  lemma ListedIsShared(pdfs: seq<Pdf>, caller: Id, item: PdfSharingController.SharedItem)
    requires item in PdfSharingController.GetSharedWithMe(pdfs, caller).pdfs
    ensures exists i | 0 <= i < |pdfs| :: HasGrant(pdfs[i].sharedWith, caller) &&
              item == PdfSharingController.SharedItemOf(pdfs[i], caller)
  {
    var body := PdfSharingController.GetSharedWithMe(pdfs, caller);
    var j :| 0 <= j < |body.pdfs| && body.pdfs[j] == item;
  }
}
