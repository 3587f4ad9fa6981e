/** The comment panel of client/src/components/CommentSection.jsx: the
    comment list and the two text inputs, the handlers that send requests
    and replace the list, and the helpers that label a comment and decide
    whether its edit and delete buttons are shown. */
module CommentSection {
  import opened Seqs
  import opened Text
  import opened Http
  import opened Records
  import opened ClientValues
  import Routes
  import UserController
  import CommentController

  /** `populate("user", "name email")`: the author's id, name and email. */
  datatype Author = Author(id: Id, name: string, email: string)

  /** A comment as the server sends it; `user` is null when the author's
      record no longer exists. */
  datatype ClientComment = ClientComment(id: Id, pdf: Id, user: Option<Author>, text: string,
                                         createdAt: nat, updatedAt: nat)

  /** A stored comment with its author populated from the user table. */
  function Populated(c: Comment, users: seq<User>): (r: ClientComment)
    ensures r.id == c.id && r.pdf == c.pdf && r.text == c.text
    ensures r.createdAt == c.createdAt && r.updatedAt == c.updatedAt
    ensures FindUser(users, c.user).None? <==> r.user.None?
    ensures r.user.Some? ==> var u := users[FindUser(users, c.user).value];
                             r.user.value == Author(u.id, u.name, u.email) && r.user.value.id == c.user
  {
    var author := match FindUser(users, c.user)
      case None => None
      case Some(j) => Some(Author(users[j].id, users[j].name, users[j].email));
    ClientComment(c.id, c.pdf, author, c.text, c.createdAt, c.updatedAt)
  }

  // ---- the list updates ----

  function NotId(id: Id): ClientComment -> bool {
    (c: ClientComment) => c.id != id
  }

  /** `comments.map(c => c._id === id ? updated : c)` */
  function ReplaceById(cs: seq<ClientComment>, id: Id, updated: ClientComment): (r: seq<ClientComment>)
    ensures |r| == |cs|
    ensures forall k | 0 <= k < |cs| :: r[k] == if cs[k].id == id then updated else cs[k]
  {
    seq(|cs|, k requires 0 <= k < |cs| => if cs[k].id == id then updated else cs[k])
  }

  /** `comments.filter(c => c._id !== id)` */
  function WithoutId(cs: seq<ClientComment>, id: Id): (r: seq<ClientComment>)
    ensures forall k | 0 <= k < |r| :: r[k].id != id && r[k] in cs
    ensures forall k | 0 <= k < |cs| :: cs[k].id != id ==> cs[k] in r
    ensures IsSubsequence(r, cs)
  {
    Filter(cs, NotId(id))
  }

  predicate UniqueIds(cs: seq<ClientComment>) {
    forall j, k | 0 <= j < k < |cs| :: cs[j].id != cs[k].id
  }

  /** An edit that comes back with the same id replaces one entry in place
      and keeps the ids unique. */
  lemma ReplaceKeepsIds(cs: seq<ClientComment>, k: nat, updated: ClientComment)
    requires UniqueIds(cs) && k < |cs| && updated.id == cs[k].id
    ensures ReplaceById(cs, cs[k].id, updated) == cs[k := updated]
    ensures UniqueIds(ReplaceById(cs, cs[k].id, updated))
  {
    var r := ReplaceById(cs, cs[k].id, updated);
    forall j | 0 <= j < |cs| ensures r[j] == cs[k := updated][j] {
      if j != k {
        assert cs[j].id != cs[k].id;
      }
    }
  }

  lemma TailKeepsUniqueIds(cs: seq<ClientComment>)
    requires UniqueIds(cs) && cs != []
    ensures UniqueIds(cs[1..])
  {
    var tail := cs[1..];
    forall j, k | 0 <= j < k < |tail| ensures tail[j].id != tail[k].id {
      assert tail[j] == cs[j + 1] && tail[k] == cs[k + 1];
    }
  }

  /** With unique ids, deleting a listed id removes exactly one entry. */
  lemma {:induction false} WithoutListedId(cs: seq<ClientComment>, id: Id)
    requires UniqueIds(cs) && exists k | 0 <= k < |cs| :: cs[k].id == id
    ensures |WithoutId(cs, id)| == |cs| - 1
    decreases |cs|
  {
    var tail := cs[1..];
    TailKeepsUniqueIds(cs);
    FilterCons(cs, NotId(id));
    if cs[0].id == id {
      forall k | 0 <= k < |tail| ensures NotId(id)(tail[k]) {
        assert tail[k] == cs[k + 1];
      }
    } else {
      var k :| 0 <= k < |cs| && cs[k].id == id;
      assert tail[k - 1].id == id;
      WithoutListedId(tail, id);
    }
  }

  /** Deleting keeps the ids unique. */
  lemma {:induction false} WithoutKeepsUniqueIds(cs: seq<ClientComment>, id: Id)
    requires UniqueIds(cs)
    ensures UniqueIds(WithoutId(cs, id))
    decreases |cs|
  {
    if cs != [] {
      var tail := cs[1..];
      TailKeepsUniqueIds(cs);
      WithoutKeepsUniqueIds(tail, id);
      FilterCons(cs, NotId(id));
      if cs[0].id != id {
        var rest := WithoutId(tail, id);
        HeadNotInRest(cs, id);
        ConsKeepsUniqueIds(cs[0], rest);
      }
    }
  }

  lemma HeadNotInRest(cs: seq<ClientComment>, id: Id)
    requires UniqueIds(cs) && cs != []
    ensures forall k | 0 <= k < |WithoutId(cs[1..], id)| :: WithoutId(cs[1..], id)[k].id != cs[0].id
  {
    var tail := cs[1..];
    var rest := WithoutId(tail, id);
    forall k | 0 <= k < |rest| ensures rest[k].id != cs[0].id {
      var t :| 0 <= t < |tail| && tail[t] == rest[k];
      assert cs[t + 1] == rest[k];
    }
  }

  lemma ConsKeepsUniqueIds(c: ClientComment, rest: seq<ClientComment>)
    requires UniqueIds(rest) && forall k | 0 <= k < |rest| :: rest[k].id != c.id
    ensures UniqueIds([c] + rest)
  {
    var r := [c] + rest;
    forall a, b | 0 <= a < b < |r| ensures r[a].id != r[b].id {
      assert r[b] == rest[b - 1];
      if a > 0 {
        assert r[a] == rest[a - 1];
      }
    }
  }

  // ---- the helpers ----

  const UnknownUser := "Unknown User"

  /** getUserInfo: the label shown for the author and its avatar initial. */
  function UserInfo(c: ClientComment): (r: (string, string))
    ensures c.user.None? ==> r == (UnknownUser, "U")
    ensures c.user.Some? ==>
              r.0 == (if c.user.value.name != "" then c.user.value.name
                      else if c.user.value.email != "" then c.user.value.email
                      else UnknownUser)
    ensures r.0 != "" && r.1 == [UpperChar(r.0[0])]
  {
    match c.user
    case None => (UnknownUser, "U")
    case Some(a) =>
      var name := if a.name != "" then a.name else if a.email != "" then a.email else UnknownUser;
      (name, [UpperChar(name[0])])
  }

  /** The initial is one character and never a lower-case ASCII letter. */
  lemma InitialIsUpper(c: ClientComment)
    ensures |UserInfo(c).1| == 1 && !('a' <= UserInfo(c).1[0] <= 'z')
  {
  }

  /** canModifyComment: someone is logged in, the comment has an author,
      and the two ids are equal. */
  predicate CanModify(viewer: Option<UserController.AuthPayload>, c: ClientComment) {
    viewer.Some? && c.user.Some? && c.user.value.id == viewer.value.id
  }

  /** The buttons are shown exactly to the comment's author, which is
      exactly who passes the server's update and delete checks. */
  lemma ButtonsMatchServer(comments: seq<Comment>, users: seq<User>, viewer: UserController.AuthPayload,
                           k: nat, text: string)
    requires UniqueCommentIds(comments) && k < |comments|
    requires FindUser(users, comments[k].user).Some?
    requires text != ""
    ensures CanModify(Some(viewer), Populated(comments[k], users)) <==>
              CommentController.UpdateCheck(comments, viewer.id, comments[k].id, text).Ok?
    ensures CanModify(Some(viewer), Populated(comments[k], users)) <==>
              CommentController.DeleteCheck(comments, viewer.id, comments[k].id).Ok?
  {
    var f := FindComment(comments, comments[k].id);
    assert f.Some?;
    assert f.value == k;
  }

  /** No one sees the buttons on a comment whose author's record is gone,
      although its author still passes the server's checks. */
  lemma OrphanHidesButtons(comments: seq<Comment>, users: seq<User>, viewer: Option<UserController.AuthPayload>,
                           k: nat, text: string)
    requires UniqueCommentIds(comments) && k < |comments|
    requires FindUser(users, comments[k].user).None?
    requires text != ""
    ensures !CanModify(viewer, Populated(comments[k], users))
    ensures CommentController.UpdateCheck(comments, comments[k].user, comments[k].id, text).Ok?
  {
    var f := FindComment(comments, comments[k].id);
    assert f.Some?;
    assert f.value == k;
  }

  // ---- the panel ----

  const CommentAdded := "Comment added"
  const AddFailed := "Failed to add comment or dont have access"
  const CommentUpdated := "Comment updated"
  const UpdateFailed := "Failed to update comment"
  const CommentDeleted := "Comment deleted"
  const DeleteFailed := "Failed to delete comment"

  /** The panel's `comments`, `newComment`, `editingCommentId` and
      `editText` state. Each handler is given the server's answer to the
      request it sends (the request itself is returned), and returns the
      toast it shows ("" for none). */
  class CommentPanel {
    var comments: seq<ClientComment>
    var newComment: string
    var editingId: Option<Id>
    var editText: string

    constructor ()
      ensures comments == [] && newComment == "" && editingId.None? && editText == ""
    {
      comments := [];
      newComment := "";
      editingId := None;
      editText := "";
    }

    /** fetchComments: the list becomes `response.data.comments`. */
    method FetchComments(outcome: Outcome<seq<ClientComment>>) returns (toast: string)
      modifies this
      ensures outcome.Succeeded? ==> comments == outcome.value && toast == ""
      ensures outcome.Rejected? ==> comments == old(comments) && toast == "Failed to load comments"
      ensures newComment == old(newComment) && editingId == old(editingId) && editText == old(editText)
    {
      match outcome
      case Succeeded(list) =>
        comments := list;
        toast := "";
      case Rejected(_) =>
        toast := "Failed to load comments";
    }

    method TypeComment(text: string)
      modifies this
      ensures newComment == text
      ensures comments == old(comments) && editingId == old(editingId) && editText == old(editText)
    {
      newComment := text;
    }

    /** handleSubmitComment: a blank input sends nothing; the text is sent
        untrimmed; the server's comment is appended and the input cleared. */
    method SubmitComment(pdfId: Id, outcome: Outcome<ClientComment>) returns (sent: Option<Request>, toast: string)
      modifies this
      ensures IsBlank(old(newComment)) ==>
                sent.None? && toast == "" && comments == old(comments) && newComment == old(newComment)
      ensures !IsBlank(old(newComment)) ==>
                sent == Some(Request(Routes.POST, Routes.CommentsApi + [pdfId, "comments"], map["text" := old(newComment)]))
      ensures !IsBlank(old(newComment)) && outcome.Succeeded? ==>
                comments == old(comments) + [outcome.value] && newComment == "" && toast == CommentAdded
      ensures !IsBlank(old(newComment)) && outcome.Rejected? ==>
                comments == old(comments) && newComment == old(newComment) && toast == AddFailed
      ensures editingId == old(editingId) && editText == old(editText)
    {
      if IsBlank(newComment) {
        sent := None;
        toast := "";
        return;
      }
      sent := Some(Request(Routes.POST, Routes.CommentsApi + [pdfId, "comments"], map["text" := newComment]));
      match outcome
      case Succeeded(c) =>
        comments := comments + [c];
        newComment := "";
        toast := CommentAdded;
      case Rejected(_) =>
        toast := AddFailed;
    }

    /** startEditing: the edit box opens on the comment with its text. */
    method StartEditing(c: ClientComment)
      modifies this
      ensures editingId == Some(c.id) && editText == c.text
      ensures comments == old(comments) && newComment == old(newComment)
    {
      editingId := Some(c.id);
      editText := c.text;
    }

    method TypeEdit(text: string)
      modifies this
      ensures editText == text
      ensures comments == old(comments) && newComment == old(newComment) && editingId == old(editingId)
    {
      editText := text;
    }

    /** The Cancel button. */
    method CancelEditing()
      modifies this
      ensures editingId.None?
      ensures comments == old(comments) && newComment == old(newComment) && editText == old(editText)
    {
      editingId := None;
    }

    /** handleEditComment: a blank edit sends nothing; on success the entry
        with that id is replaced by the server's comment and the edit box
        closes. */
    method EditComment(commentId: Id, outcome: Outcome<ClientComment>) returns (sent: Option<Request>, toast: string)
      modifies this
      ensures IsBlank(old(editText)) ==>
                sent.None? && toast == "" && comments == old(comments) && editingId == old(editingId)
      ensures !IsBlank(old(editText)) ==>
                sent == Some(Request(Routes.PUT, Routes.CommentsApi + ["comments", commentId], map["text" := old(editText)]))
      ensures !IsBlank(old(editText)) && outcome.Succeeded? ==>
                comments == ReplaceById(old(comments), commentId, outcome.value) && editingId.None? &&
                toast == CommentUpdated
      ensures !IsBlank(old(editText)) && outcome.Rejected? ==>
                comments == old(comments) && editingId == old(editingId) && toast == UpdateFailed
      ensures newComment == old(newComment) && editText == old(editText)
    {
      if IsBlank(editText) {
        sent := None;
        toast := "";
        return;
      }
      sent := Some(Request(Routes.PUT, Routes.CommentsApi + ["comments", commentId], map["text" := editText]));
      match outcome
      case Succeeded(c) =>
        comments := ReplaceById(comments, commentId, c);
        editingId := None;
        toast := CommentUpdated;
      case Rejected(_) =>
        toast := UpdateFailed;
    }

    /** handleDeleteComment: a declined confirmation sends nothing; on
        success the entries with that id leave the list. */
    method DeleteComment(commentId: Id, confirmed: bool, outcome: Outcome<()>) returns (sent: Option<Request>, toast: string)
      modifies this
      ensures !confirmed ==> sent.None? && toast == "" && comments == old(comments)
      ensures confirmed ==> sent == Some(Request(Routes.DELETE, Routes.CommentsApi + ["comments", commentId], map[]))
      ensures confirmed && outcome.Succeeded? ==> comments == WithoutId(old(comments), commentId) && toast == CommentDeleted
      ensures confirmed && outcome.Rejected? ==> comments == old(comments) && toast == DeleteFailed
      ensures newComment == old(newComment) && editingId == old(editingId) && editText == old(editText)
    {
      if !confirmed {
        sent := None;
        toast := "";
        return;
      }
      sent := Some(Request(Routes.DELETE, Routes.CommentsApi + ["comments", commentId], map[]));
      if outcome.Succeeded? {
        comments := WithoutId(comments, commentId);
        toast := CommentDeleted;
      } else {
        toast := DeleteFailed;
      }
    }
  }
}
