/** The document store the server's handlers change: the pdf, comment and
    user collections, the clock that stamps `createdAt`/`updatedAt`, and the
    set of tokens handed out so far. Each handler that writes is a method
    here that runs the pure checks of its controller and then changes the
    collections; a refused request changes nothing. */
module Database {
  import opened Seqs
  import opened Records
  import opened Http
  import opened Upload
  import opened PdfSharingController
  import opened CommentController
  import PdfController
  import UserController

  /** What every stored pdf satisfies: the schema's required fields, one
      grant per user, every grant naming a user, tokens that were issued
      and are non-empty, and timestamps not ahead of the clock. */
  ghost predicate PdfInvariant(p: Pdf, clock: nat, issued: set<string>) {
    && p.id != "" && ValidPdf(p)
    && GranteesUnique(p.sharedWith)
    && (forall k | 0 <= k < |p.sharedWith| :: p.sharedWith[k].userId.Some? && p.sharedWith[k].accessToken in issued)
    && (p.publicAccessToken.Some? ==> p.publicAccessToken.value != "" && p.publicAccessToken.value in issued)
    && p.createdAt <= p.updatedAt < clock
  }

  ghost predicate CommentInvariant(c: Comment, pdfs: seq<Pdf>, clock: nat) {
    ValidComment(c) && c.pdf in PdfIds(pdfs) && c.createdAt <= c.updatedAt < clock
  }

  /** The store's invariant: unique ids in each collection, every pdf as
      above, every comment valid and on an existing pdf, every user with an id. */
  ghost predicate StoreInvariant(pdfs: seq<Pdf>, comments: seq<Comment>, users: seq<User>, clock: nat, issued: set<string>) {
    && UniquePdfIds(pdfs) && UniqueCommentIds(comments) && UniqueUserIds(users)
    && (forall i | 0 <= i < |pdfs| :: PdfInvariant(pdfs[i], clock, issued))
    && (forall k | 0 <= k < |comments| :: CommentInvariant(comments[k], pdfs, clock))
    && (forall j | 0 <= j < |users| :: users[j].id != "")
  }

  lemma PdfInvariantGrows(p: Pdf, clock: nat, issued: set<string>, clock': nat, issued': set<string>)
    requires PdfInvariant(p, clock, issued) && clock <= clock' && issued <= issued'
    ensures PdfInvariant(p, clock', issued')
  {
  }

  /** Replacing one pdf by a record with the same id keeps the invariant. */
  lemma ReplaceKeepsInvariant(pdfs: seq<Pdf>, comments: seq<Comment>, users: seq<User>,
                              clock: nat, issued: set<string>, clock': nat, issued': set<string>,
                              i: nat, p: Pdf)
    requires StoreInvariant(pdfs, comments, users, clock, issued)
    requires clock <= clock' && issued <= issued'
    requires i < |pdfs| && p.id == pdfs[i].id && PdfInvariant(p, clock', issued')
    ensures StoreInvariant(pdfs[i := p], comments, users, clock', issued')
  {
    var q := pdfs[i := p];
    assert PdfIds(q) == PdfIds(pdfs);
    forall j | 0 <= j < |q| ensures PdfInvariant(q[j], clock', issued') {
      if j != i {
        PdfInvariantGrows(pdfs[j], clock, issued, clock', issued');
      }
    }
  }

  /** Removing pdf `i` together with its comments keeps the invariant: no
      comment is left pointing at the removed pdf. */
  lemma {:induction false} CascadeKeepsInvariant(pdfs: seq<Pdf>, comments: seq<Comment>, users: seq<User>,
                                                 clock: nat, issued: set<string>, i: nat)
    requires StoreInvariant(pdfs, comments, users, clock, issued)
    requires i < |pdfs|
    ensures StoreInvariant(RemoveAt(pdfs, i), CascadeComments(comments, pdfs[i].id), users, clock, issued)
  {
    var q := RemoveAt(pdfs, i);
    var rest := CascadeComments(comments, pdfs[i].id);
    forall a, b | 0 <= a < b < |q| ensures q[a].id != q[b].id {
      if b < i { } else if a < i { assert q[b] == pdfs[b + 1]; } else { assert q[a] == pdfs[a + 1] && q[b] == pdfs[b + 1]; }
    }
    forall j | 0 <= j < |q| ensures PdfInvariant(q[j], clock, issued) {
      if j >= i { assert q[j] == pdfs[j + 1]; }
    }
    FilterKeepsUniqueIds(comments, NotOn(pdfs[i].id));
    forall k | 0 <= k < |rest| ensures CommentInvariant(rest[k], q, clock) {
      var m :| 0 <= m < |comments| && comments[m] == rest[k];
      var c := comments[m];
      assert c.pdf in PdfIds(pdfs);
      var j :| 0 <= j < |pdfs| && PdfIds(pdfs)[j] == c.pdf;
      assert j != i;
      if j < i {
        assert PdfIds(q)[j] == c.pdf;
      } else {
        assert PdfIds(q)[j - 1] == c.pdf;
      }
    }
  }

  lemma {:induction false} FilterKeepsUniqueIds(s: seq<Comment>, p: Comment -> bool)
    requires UniqueCommentIds(s)
    ensures UniqueCommentIds(Filter(s, p))
    decreases |s|
  {
    if s != [] {
      TailKeepsUniqueIds(s);
      FilterKeepsUniqueIds(s[1..], p);
      FilterCons(s, p);
      if p(s[0]) {
        HeadNotRefiltered(s, p);
        ConsKeepsUniqueIds(s[0], Filter(s[1..], p));
      }
    }
  }

  lemma ConsKeepsUniqueIds(c: Comment, rest: seq<Comment>)
    requires UniqueCommentIds(rest)
    requires forall k | 0 <= k < |rest| :: rest[k].id != c.id
    ensures UniqueCommentIds([c] + rest)
  {
    var r := [c] + rest;
    forall a, b | 0 <= a < b < |r| ensures r[a].id != r[b].id {
      assert r[b] == rest[b - 1];
      if a > 0 { assert r[a] == rest[a - 1]; }
    }
  }

  lemma TailKeepsUniqueIds(s: seq<Comment>)
    requires UniqueCommentIds(s) && s != []
    ensures UniqueCommentIds(s[1..])
  {
    var tail := s[1..];
    forall a, b | 0 <= a < b < |tail| ensures tail[a].id != tail[b].id {
      assert tail[a] == s[a + 1] && tail[b] == s[b + 1];
    }
  }

  /** The first comment's id does not come back among the filtered rest. */
  lemma HeadNotRefiltered(s: seq<Comment>, p: Comment -> bool)
    requires UniqueCommentIds(s) && s != []
    ensures forall k | 0 <= k < |Filter(s[1..], p)| :: Filter(s[1..], p)[k].id != s[0].id
  {
    var tail := s[1..];
    var rest := Filter(tail, p);
    forall k | 0 <= k < |rest| ensures rest[k].id != s[0].id {
      var m :| 0 <= m < |tail| && tail[m] == rest[k];
      assert s[m + 1] == rest[k];
    }
  }

  /** Appending a fresh comment on an existing pdf keeps the invariant. */
  lemma AddCommentKeepsInvariant(pdfs: seq<Pdf>, comments: seq<Comment>, users: seq<User>,
                                 clock: nat, issued: set<string>, made: Comment)
    requires StoreInvariant(pdfs, comments, users, clock, issued)
    requires FindComment(comments, made.id).None? && ValidComment(made)
    requires made.pdf in PdfIds(pdfs) && made.createdAt <= made.updatedAt < clock + 1
    ensures StoreInvariant(pdfs, comments + [made], users, clock + 1, issued)
  {
    var s := comments + [made];
    forall k | 0 <= k < |s| ensures CommentInvariant(s[k], pdfs, clock + 1) {
      if k < |comments| { assert s[k] == comments[k]; }
    }
    forall a, b | 0 <= a < b < |s| ensures s[a].id != s[b].id {
      assert s[a] == comments[a];
      if b < |comments| { assert s[b] == comments[b]; }
    }
    forall i | 0 <= i < |pdfs| ensures PdfInvariant(pdfs[i], clock + 1, issued) {
      PdfInvariantGrows(pdfs[i], clock, issued, clock + 1, issued);
    }
  }

  class Database {
    var pdfs: seq<Pdf>
    var comments: seq<Comment>
    var users: seq<User>
    /** The next timestamp; every write takes the current value and moves it on. */
    var clock: nat
    /** Every token handed out so far (uuid v4 values are never repeated). */
    ghost var issued: set<string>

    ghost predicate Valid()
      reads this
    {
      StoreInvariant(pdfs, comments, users, clock, issued)
    }

    constructor ()
      ensures Valid()
      ensures pdfs == [] && comments == [] && users == [] && issued == {}
    {
      pdfs, comments, users, clock := [], [], [], 0;
      issued := {};
    }

    /** POST /api/pdf-sharing/:id/share/email. `uuid` is the fresh token. */
    method ShareWithEmail(caller: Id, pdfId: Id, userId: Id, email: string, uuid: string) returns (r: Reply<string>)
      requires Valid() && uuid != "" && uuid !in issued
      modifies this
      ensures Valid()
      ensures users == old(users) && comments == old(comments)
      ensures var c := ShareCheck(old(pdfs), old(users), caller, pdfId, userId, email);
              c.Err? ==> r == Err(c.status, c.message) && pdfs == old(pdfs) && clock == old(clock) && issued == old(issued)
      ensures var c := ShareCheck(old(pdfs), old(users), caller, pdfId, userId, email);
              c.Ok? ==> var i := c.value.0; var u := old(users)[c.value.1];
                        && pdfs == old(pdfs)[i := Granted(old(pdfs)[i], u, uuid, old(clock))]
                        && r == Ok(200, "Access granted to " + DisplayName(u))
                        && clock == old(clock) + 1 && issued == old(issued) + {uuid}
    {
      var c := ShareCheck(pdfs, users, caller, pdfId, userId, email);
      if c.Err? {
        return Err(c.status, c.message);
      }
      var i := c.value.0;
      var u := users[c.value.1];
      var g := Grant(Some(u.id), u.email, uuid, clock);
      var p := Granted(pdfs[i], u, uuid, clock);
      AppendKeepsGranteesUnique(pdfs[i].sharedWith, g, userId);
      assert p.sharedWith == pdfs[i].sharedWith + [g];
      ReplaceKeepsInvariant(pdfs, comments, users, clock, issued, clock + 1, issued + {uuid}, i, p);
      pdfs := pdfs[i := p];
      clock := clock + 1;
      issued := issued + {uuid};
      r := Ok(200, "Access granted to " + DisplayName(u));
    }

    /** POST /api/pdf-sharing/:id/share/public. `uuid` is the fresh token
        and `env` the FRONTEND_URL setting. */
    method GeneratePublicLink(caller: Id, pdfId: Id, uuid: string, env: string) returns (r: Reply<string>)
      requires Valid() && uuid != "" && uuid !in issued
      modifies this
      ensures Valid()
      ensures users == old(users) && comments == old(comments)
      ensures var o := OwnedPdf(old(pdfs), caller, pdfId);
              o.Err? ==> r == Err(o.status, o.message) && pdfs == old(pdfs) && clock == old(clock) && issued == old(issued)
      ensures var o := OwnedPdf(old(pdfs), caller, pdfId);
              o.Ok? ==> && pdfs == old(pdfs)[o.value := WithPublicToken(old(pdfs)[o.value], uuid, old(clock))]
                        && r == Ok(200, PublicLink(env, pdfId, uuid))
                        && clock == old(clock) + 1 && issued == old(issued) + {uuid}
      ensures var o := OwnedPdf(old(pdfs), caller, pdfId);
              o.Ok? ==> && (forall q :: ViewPublicPdf(pdfs, pdfId, q).Ok? <==> q == Some(uuid))
                        && (old(pdfs)[o.value].publicAccessToken.Some? ==>
                              ViewPublicPdf(pdfs, pdfId, old(pdfs)[o.value].publicAccessToken).Err?)
    {
      var o := OwnedPdf(pdfs, caller, pdfId);
      if o.Err? {
        return Err(o.status, o.message);
      }
      var i := o.value;
      var p := WithPublicToken(pdfs[i], uuid, clock);
      assert PdfInvariant(pdfs[i], clock, issued);
      ReplaceKeepsInvariant(pdfs, comments, users, clock, issued, clock + 1, issued + {uuid}, i, p);
      var np := pdfs[i := p];
      forall q ensures ViewPublicPdf(np, pdfId, q).Ok? <==> q == Some(uuid) {
        OnlyNewTokenOpens(pdfs, i, uuid, clock, q);
      }
      pdfs := np;
      clock := clock + 1;
      issued := issued + {uuid};
      r := Ok(200, PublicLink(env, pdfId, uuid));
    }

    /** POST /api/pdf/:pdfId/comments. `newId` is the new comment's id and
        `caller` the authenticated user's. */
    method CreateComment(caller: Id, pdfId: Id, text: string, newId: Id) returns (r: Reply<Comment>)
      requires Valid() && caller != "" && FindComment(comments, newId).None?
      modifies this
      ensures Valid()
      ensures pdfs == old(pdfs) && users == old(users) && issued == old(issued)
      ensures var c := CreateCheck(old(pdfs), caller, pdfId, text);
              c.Err? ==> r == Err(c.status, c.message) && comments == old(comments) && clock == old(clock)
      ensures CreateCheck(old(pdfs), caller, pdfId, text).Ok? ==>
                var made := Comment(newId, pdfId, caller, text, old(clock), old(clock));
                && comments == old(comments) + [made]
                && r == Ok(201, made)
                && clock == old(clock) + 1
    {
      var c := CreateCheck(pdfs, caller, pdfId, text);
      if c.Err? {
        return Err(c.status, c.message);
      }
      var made := Comment(newId, pdfId, caller, text, clock, clock);
      PdfIdsFind(pdfs, pdfId);
      assert PdfInvariant(pdfs[c.value], clock, issued);
      AddCommentKeepsInvariant(pdfs, comments, users, clock, issued, made);
      comments := comments + [made];
      clock := clock + 1;
      r := Ok(201, made);
    }

    /** PUT /api/pdf/comments/:commentId: only the text and `updatedAt` change. */
    method UpdateComment(caller: Id, commentId: Id, text: string) returns (r: Reply<Comment>)
      requires Valid()
      modifies this
      ensures Valid()
      ensures pdfs == old(pdfs) && users == old(users) && issued == old(issued)
      ensures var c := UpdateCheck(old(comments), caller, commentId, text);
              c.Err? ==> r == Err(c.status, c.message) && comments == old(comments) && clock == old(clock)
      ensures var c := UpdateCheck(old(comments), caller, commentId, text);
              c.Ok? ==> var edited := old(comments)[c.value].(text := text, updatedAt := old(clock));
                        && comments == old(comments)[c.value := edited]
                        && r == Ok(200, edited)
                        && clock == old(clock) + 1
    {
      var c := UpdateCheck(comments, caller, commentId, text);
      if c.Err? {
        return Err(c.status, c.message);
      }
      var k := c.value;
      var edited := comments[k].(text := text, updatedAt := clock);
      forall i | 0 <= i < |pdfs| ensures PdfInvariant(pdfs[i], clock + 1, issued) {
        PdfInvariantGrows(pdfs[i], clock, issued, clock + 1, issued);
      }
      comments := comments[k := edited];
      clock := clock + 1;
      r := Ok(200, edited);
    }

    /** DELETE /api/pdf/comments/:commentId: exactly that comment goes. */
    method DeleteComment(caller: Id, commentId: Id) returns (r: Reply<string>)
      requires Valid()
      modifies this
      ensures Valid()
      ensures pdfs == old(pdfs) && users == old(users) && issued == old(issued) && clock == old(clock)
      ensures var c := DeleteCheck(old(comments), caller, commentId);
              c.Err? ==> r == Err(c.status, c.message) && comments == old(comments)
      ensures var c := DeleteCheck(old(comments), caller, commentId);
              c.Ok? ==> comments == RemoveAt(old(comments), c.value) && r == Ok(200, "Comment deleted")
      ensures FindComment(comments, commentId).None?
              || DeleteCheck(old(comments), caller, commentId).Err?
    {
      var c := DeleteCheck(comments, caller, commentId);
      if c.Err? {
        return Err(c.status, c.message);
      }
      var k := c.value;
      var s := RemoveAt(comments, k);
      forall a, b | 0 <= a < b < |s| ensures s[a].id != s[b].id {
        if b < k { } else if a < k { assert s[b] == comments[b + 1]; } else { assert s[a] == comments[a + 1] && s[b] == comments[b + 1]; }
      }
      forall j | 0 <= j < |s| ensures CommentInvariant(s[j], pdfs, clock) && s[j].id != commentId {
        if j >= k { assert s[j] == comments[j + 1]; }
      }
      comments := s;
      r := Ok(200, "Comment deleted");
    }

    /** POST /api/pdfs/upload, after the upload step. `file` is `req.file`,
        `drive` what uploadToDrive did and `newId` the new record's id. */
    method UploadPdf(caller: Id, file: Option<StoredFile>, bodyTitle: string,
                     drive: PdfController.DriveUpload, newId: Id) returns (r: Reply<Pdf>)
      requires Valid() && newId != "" && FindPdf(pdfs, newId).None?
      modifies this
      ensures Valid()
      ensures comments == old(comments) && users == old(users) && issued == old(issued)
      ensures var c := PdfController.UploadCheck(file, bodyTitle, drive, caller, newId, old(clock));
              c.Err? ==> r == c && pdfs == old(pdfs) && clock == old(clock)
      ensures var c := PdfController.UploadCheck(file, bodyTitle, drive, caller, newId, old(clock));
              c.Ok? ==> pdfs == old(pdfs) + [c.value] && r == c && clock == old(clock) + 1
    {
      var c := PdfController.UploadCheck(file, bodyTitle, drive, caller, newId, clock);
      if c.Err? {
        return c;
      }
      var s := pdfs + [c.value];
      assert forall k | 0 <= k < |pdfs| :: s[k] == pdfs[k];
      forall i | 0 <= i < |s| ensures PdfInvariant(s[i], clock + 1, issued) {
        if i < |pdfs| {
          PdfInvariantGrows(pdfs[i], clock, issued, clock + 1, issued);
        }
      }
      forall k | 0 <= k < |comments| ensures comments[k].pdf in PdfIds(s) {
        var j :| 0 <= j < |pdfs| && PdfIds(pdfs)[j] == comments[k].pdf;
        assert PdfIds(s)[j] == comments[k].pdf;
      }
      pdfs := s;
      clock := clock + 1;
      r := c;
    }

    /** PUT /api/pdfs/:id. `driveOk` is whether renameInDrive succeeded. */
    method UpdatePdf(caller: Id, id: Id, title: string, driveOk: bool) returns (r: Reply<Pdf>)
      requires Valid()
      modifies this
      ensures Valid()
      ensures comments == old(comments) && users == old(users) && issued == old(issued)
      ensures var c := PdfController.UpdateCheck(old(pdfs), caller, id, title, driveOk);
              c.Err? ==> r == Err(c.status, c.message) && pdfs == old(pdfs) && clock == old(clock)
      ensures var c := PdfController.UpdateCheck(old(pdfs), caller, id, title, driveOk);
              c.Ok? ==> var renamed := old(pdfs)[c.value].(title := title, updatedAt := old(clock));
                        && pdfs == old(pdfs)[c.value := renamed]
                        && r == Ok(200, renamed)
                        && clock == old(clock) + 1
    {
      var c := PdfController.UpdateCheck(pdfs, caller, id, title, driveOk);
      if c.Err? {
        return Err(c.status, c.message);
      }
      var i := c.value;
      var renamed := pdfs[i].(title := title, updatedAt := clock);
      assert PdfInvariant(pdfs[i], clock, issued);
      ReplaceKeepsInvariant(pdfs, comments, users, clock, issued, clock + 1, issued, i, renamed);
      pdfs := pdfs[i := renamed];
      clock := clock + 1;
      r := Ok(200, renamed);
    }

    /** DELETE /api/pdfs/:id with the cascade the pre-deleteOne hook is meant
        to run. `driveOk` is whether deleteFromDrive succeeded; when it did
        not, the record stays. */
    method DeletePdf(caller: Id, id: Id, driveOk: bool) returns (r: Reply<string>)
      requires Valid()
      modifies this
      ensures Valid()
      ensures users == old(users) && issued == old(issued) && clock == old(clock)
      ensures var o := OwnedPdf(old(pdfs), caller, id);
              o.Err? ==> r == Err(o.status, o.message) && pdfs == old(pdfs) && comments == old(comments)
      ensures OwnedPdf(old(pdfs), caller, id).Ok? && !driveOk ==>
                r == Err(500, ServerError) && pdfs == old(pdfs) && comments == old(comments)
      ensures var o := OwnedPdf(old(pdfs), caller, id);
              o.Ok? && driveOk ==> && pdfs == RemoveAt(old(pdfs), o.value)
                                   && comments == CascadeComments(old(comments), id)
                                   && r == Ok(200, "PDF deleted successfully")
      ensures r.Ok? ==> FindPdf(pdfs, id).None? && forall k | 0 <= k < |comments| :: comments[k].pdf != id
    {
      var o := OwnedPdf(pdfs, caller, id);
      if o.Err? {
        return Err(o.status, o.message);
      }
      if !driveOk {
        return Err(500, ServerError);
      }
      var i := o.value;
      CascadeKeepsInvariant(pdfs, comments, users, clock, issued, i);
      var rest := PreDeleteOne(comments, id).comments;
      var q := RemoveAt(pdfs, i);
      forall k | 0 <= k < |q| ensures q[k].id != id {
        if k < i { assert q[k] == pdfs[k]; } else { assert q[k] == pdfs[k + 1]; }
      }
      pdfs := q;
      comments := rest;
      r := Ok(200, "PDF deleted successfully");
    }

    /** POST /api/users/register. `newId` is the new user's id; the two
        generators sign the tokens. */
    method RegisterUser(userName: string, name: string, email: string, password: string, newId: Id,
                        accessFor: Id -> string, refreshFor: Id -> string) returns (r: Reply<UserController.AuthPayload>)
      requires Valid() && newId != "" && FindUser(users, newId).None?
      modifies this
      ensures Valid()
      ensures pdfs == old(pdfs) && comments == old(comments) && clock == old(clock) && issued == old(issued)
      ensures var c := UserController.RegisterCheck(old(users), userName, name, email, password);
              c.Err? ==> r == Err(c.status, c.message) && users == old(users)
      ensures UserController.RegisterCheck(old(users), userName, name, email, password).Ok? ==>
                var u := User(newId, userName, name, email, password);
                && users == old(users) + [u]
                && r == Ok(201, UserController.PayloadOf(u, accessFor, refreshFor))
    {
      var c := UserController.RegisterCheck(users, userName, name, email, password);
      if c.Err? {
        return Err(c.status, c.message);
      }
      var u := User(newId, userName, name, email, password);
      var s := users + [u];
      assert forall k | 0 <= k < |users| :: s[k] == users[k];
      users := s;
      r := Ok(201, UserController.PayloadOf(u, accessFor, refreshFor));
    }
  }
}
