# PDF management system — a Dafny model

This project models a small PDF-sharing service and the parts of its web
client that use it.

On the server side, users register and log in, and receive tokens. They
upload PDF files, which also go to Google Drive. An owner can do three
things with a file:
- grant another user access to it by email;
- publish an anonymous link carrying a random token;
- delete the file.

Users who may see a PDF comment on it, and authors edit or delete their own
comments.

The model covers the following.

- **The stored records** (`records.dfy`):
  - the Pdf schema with its embedded `sharedWith` grants, the Comment schema
    and the user fields the handlers read;
  - the lookups `findById`/`findOne` and the ownership guard shared by five
    handlers;
  - the pre-`deleteOne` hook.
- **The request pipeline**:
  - the route table of the four routers and their mount points
    (`routes.dfy`);
  - the Bearer-token middleware (`auth_middleware.dfy`);
  - the single-file upload step with its size limit and type filter
    (`upload.dfy`);
  - the error-handling middleware (`error_handler.dfy`).
- **The handlers**:
  - the read handlers and the checks of every writing handler are pure
    functions (`user_controller.dfy`, `pdf_controller.dfy`,
    `pdf_sharing_controller.dfy`, `comment_controller.dfy`);
  - the writing handlers are methods of a `Database` class that holds the
    three collections (`database.dfy`). Its `Valid()` invariant keeps ids
    unique, grantees unique, every comment on an existing pdf, every token
    issued, and timestamps behind the clock.
- **The client**:
  - the session provider: restore on load, login, register, logout, the
    stored user and the Authorization header (`auth_context.dfy`);
  - the login form: its validation, the email pattern and the toasts
    (`login_page.dfy`);
  - the dashboard's searches, delete and tab content (`dashboard.dfy`);
  - the share dialog (`share_modal.dfy`);
  - the comment panel (`comment_section.dfy`);
  - the upload dialog (`upload_modal.dfy`).
- **What the client sees of a reply** (`client_values.dfy`):
  - the server's reply reaches the client as an `Outcome`;
  - a refusal carries its text under the JSON key its controller uses. The
    pdf and sharing controllers use `error`; the user and comment
    controllers and the error middleware use `message`.

Request paths are sequences of segments below the server root, and the
client's base URL `/api` is written into them. Things outside the program
become parameters of the operations that use them:
- the clock;
- fresh ObjectIds and uuid tokens;
- Google Drive's success or failure;
- `jwt.verify`, `comparePassword` and the token generators;
- the server's answer to each client request;
- the browser's `window.confirm`.

Strings are `seq<char>`. An absent body field and an empty one are both the
empty string, as both are falsy in JavaScript.

Six defects of the source are logged under "## Findings". For each, one
member models the code as written and another the evidently intended
behaviour. In the table the rows for the second kind start with
"corrected:". `Database.Database.DeletePdf` and `Dashboard.Dashboard` are
built on the corrected members. The upload route, the grant toast and the
upload toast are modelled both ways under separate names.

## Model

| member | source | states |
|---|---|---|
| Records.FindGrant | server/controllers/pdfSharingController.js:27-29 | the position of the first grant whose userId is the given id, or None exactly when no grant has it |
| Records.FindGrantIffHasGrant | server/controllers/commentController.js:17-22 | `sharedWith.find` by user finds something exactly when `sharedWith.some` does |
| Records.AppendKeepsGranteesUnique | server/controllers/pdfSharingController.js:27-42 | pushing a grant for a user who has none keeps one grant per user |
| Records.OwnedPdf | server/controllers/pdfController.js:48-52 | the shared guard: 404 "PDF not found" exactly when no pdf has the id, Ok with its position exactly when the caller uploaded it, otherwise 403 "Unauthorized" |
| Records.FindPdf | server/controllers/pdfController.js:48 | `Pdf.findById`: a position holding that id, or None exactly when no pdf has it |
| Records.FindComment | server/controllers/commentController.js:70 | `Comment.findById`: a position holding that id, or None exactly when none has it |
| Records.FindUser | server/controllers/pdfSharingController.js:22 | `User.findById`: a position holding that id, or None exactly when none has it |
| Records.FindUserByEmail | server/controllers/userControllers.js:48 | `User.findOne({email})`: the first user with that email, or None exactly when none has it |
| Records.CascadeComments | server/models/pdfModels.js:30-38 | `Comment.deleteMany({pdf})`: the comments on other pdfs, all of them, in order |
| Records.PreDeleteOneAsWritten | server/models/pdfModels.js:1-40 | the hook names `Comment`, which the file never imports, so it always throws a ReferenceError |
| Records.PreDeleteOne | server/models/pdfModels.js:30-38 | corrected: the hook with the comment model in scope completes, removing exactly the comments on the pdf and keeping the others in their order |
| Upload.FileFilter | server/config/multerConfig.js:22-28 | accepts exactly `application/pdf`; otherwise it rejects with "Only PDF files allowed" |
| Upload.StoredFilename | server/config/multerConfig.js:10-13 | the stored name starts with the decimal timestamp |
| Upload.StoredFilenameRoundTrip | server/config/multerConfig.js:10-13 | the timestamp and the original name can be read back from the stored name, split at its first `-` |
| Upload.SingleUpload | server/config/multerConfig.js:21-28 | `upload.single(field)`: no part gives no file; an unexpected field, a non-pdf and a file over 10 MB are each rejected with their error; an accepted part is stored with its name, type and size |
| ErrorHandler.HandleErrorAsWritten | server/server.js:44-63 | every answer is an error: 400 for multer errors with the 50MB text, 400 for the message "Only PDF files are allowed!", else 500 with the error's message |
| ErrorHandler.RejectedFileIsServerErrorAsWritten | server/server.js:56-62 | a file the filter rejects is answered with 500, since the filter's message differs from the one tested |
| ErrorHandler.SizeMessageMisstatesLimit | server/server.js:51 | the size reply says 50MB while the limit is 10 MB |
| ErrorHandler.HandleError | server/server.js:44-63 | corrected: as written, except that the reply names the real limit and the filter's own message is answered with 400 |
| ErrorHandler.UploadRejectionsAreClientErrors | server/server.js:44-58 | corrected: with HandleError, every rejection of the upload step is answered with 400 |
| ErrorHandler.UploadRejectionAsWrittenCanBe500 | server/server.js:56-62 | as written, a text file sent under the right field gets 500 |
| AuthMiddleware.BearerToken | server/middlewares/authMiddlewares.js:10 | the piece after "Bearer " up to the next space, which holds no space |
| AuthMiddleware.BearerTokenIsSecondPiece | server/middlewares/authMiddlewares.js:10 | the token is `split(" ")[1]` of the header |
| AuthMiddleware.HeaderRoundTrip | server/middlewares/authMiddlewares.js:5-10 | a token without spaces put in a Bearer header comes back out |
| AuthMiddleware.DoubleSpaceGivesEmptyToken | server/middlewares/authMiddlewares.js:10 | "Bearer  x" yields the empty token |
| AuthMiddleware.JwtErrorMessage | server/middlewares/authMiddlewares.js:21-28 | "Access token expired" for an expired token, "Invalid token" for a malformed one, "Token is not valid" otherwise |
| AuthMiddleware.Authenticate | server/middlewares/authMiddlewares.js:5-28 | every refusal is 401; no Bearer header gives "No token, authorization denied"; a failed verify gives its error's message; an unknown id gives "User not found"; otherwise the stored user is attached. The header test is AuthMiddleware.HasBearer, `authHeader?.startsWith("Bearer ")` at line 6, with Text.StartsWith as `startsWith` |
| AuthMiddleware.AuthenticatedIsStored | server/middlewares/authMiddlewares.js:12-20 | whoever is let through is a stored user, found by the id in the token |
| UserController.PayloadOf | server/controllers/userControllers.js:56-63 | the payload carries the user's id, userName, name and email, and both generated tokens |
| UserController.PayloadHidesPassword | server/controllers/userControllers.js:56-63 | the payload does not depend on the password |
| UserController.LoginUser | server/controllers/userControllers.js:40-68 | 400 exactly when a field is missing; Ok with the payload exactly when the email is found and the password matches; otherwise 401 "Invalid email or password" |
| UserController.LoginHidesWhichPartFailed | server/controllers/userControllers.js:48-51 | a wrong password and an unknown email get the same reply |
| UserController.RegisterCheck | server/controllers/userControllers.js:7-20 | 400 exactly when one of the four fields is missing; past that, 409 exactly when both the email and the user name are taken |
| UserController.DuplicateEmailAccepted | server/controllers/userControllers.js:15-19 | a second account with a taken email and a new user name is let through |
| UserController.RefusedOnlyWhenBothTaken | server/controllers/userControllers.js:15-19 | with all fields present, the check refuses exactly when both the email and the user name are taken |
| CommentController.OldestFirstTotal | server/controllers/commentController.js:52 | ordering by createdAt relates every pair; CommentController.OldestFirst is `.sort({ createdAt: 1 })` |
| CommentController.GetComments | server/controllers/commentController.js:43-59 | 404 exactly for an unknown pdf; otherwise 200 with exactly the comments on that pdf, as a permutation of them, oldest first |
| CommentController.CommentListFacts | server/controllers/commentController.js:50-52 | the filtered and sorted list holds exactly the pdf's comments, ordered by createdAt |
| CommentController.CreateCheck | server/controllers/commentController.js:5-22 | in order: 400 for empty text, 404 for an unknown pdf, Ok exactly for the owner or a grantee, else 403 "No access to this PDF" |
| CommentController.OwnerMayComment | server/controllers/commentController.js:17-19 | the owner may always comment, with or without a grant |
| CommentController.UpdateCheck | server/controllers/commentController.js:62-80 | 400 for empty text, 404 for an unknown comment, Ok exactly for its author, else 403 |
| CommentController.DeleteCheck | server/controllers/commentController.js:93-105 | 404 exactly for an unknown comment, Ok exactly for its author, else 403 |
| CommentController.AuthorshipDecidesBoth | server/controllers/commentController.js:73-77 | for non-empty text, whoever passes the update check passes the delete check, and the reverse |
| PdfController.GetMyPdfs | server/controllers/pdfController.js:36-43 | exactly the caller's pdfs, in table order |
| PdfController.SharedPdfNotMine | server/controllers/pdfController.js:38 | a pdf merely shared with the caller is not listed |
| PdfController.GetPdfDetails | server/controllers/pdfController.js:46-58 | 404 for an unknown id; the whole record exactly for its owner; otherwise 403 |
| PdfController.GranteeRefusedDetails | server/controllers/pdfController.js:50-52 | a non-owner, grantee or not, is refused with 403 |
| PdfController.UploadTitle | server/controllers/pdfController.js:19 | the body's title, or the original file name when the title is empty |
| PdfController.UploadCheck | server/controllers/pdfController.js:9-33 | 400 exactly when no file came; 500 when Drive fails; otherwise 201 with a valid record: the caller as owner, Drive's id and link, and the chosen title |
| PdfController.UploadTitleChoice | server/controllers/pdfController.js:19 | an empty title falls back to the file name; a given one is kept |
| PdfController.UpdateCheck | server/controllers/pdfController.js:61-77 | the ownership guard's refusals; for the owner, 500 when Drive fails or the title is empty; otherwise Ok |
| PdfController.DeletePdfAsWritten | server/controllers/pdfController.js:80-97 | the guard's refusals delete nothing; for the owner the Drive file goes (when Drive works) but the hook throws, so the reply is 500 and both tables are unchanged |
| PdfController.DeleteAsWrittenLosesFile | server/controllers/pdfController.js:88-91 | an owner's delete with Drive working fails, leaves the record, and has deleted its Drive file |
| PdfSharingController.ViewHidesSharing | server/controllers/pdfSharingController.js:97-103 | the view body does not depend on the owner, the grants or the public token; PdfSharingController.ViewOf is the fields the reply picks |
| PdfSharingController.FrontendUrl | server/controllers/pdfSharingController.js:71-72 | the environment value when it is set, else the non-empty default |
| PdfSharingController.PublicLink | server/controllers/pdfSharingController.js:73 | the link starts with the frontend URL |
| PdfSharingController.LinkPdfIdRoundTrip | server/controllers/pdfSharingController.js:71-73 | an id without `?` is read back from between `/shared/` and the first `?` of the link it is put in |
| PdfSharingController.LinkTokenRoundTrip | server/controllers/pdfSharingController.js:67-73 | a token without `=` is read back from the link it is put in |
| PdfSharingController.ShareCheck | server/controllers/pdfSharingController.js:6-34 | in source order: the guard's 404 and 403, 400 for a missing field, 404 for an unknown user or a different email, 400 for an existing grant; Ok with the pdf's and user's positions |
| PdfSharingController.Granted | server/controllers/pdfSharingController.js:36-44 | exactly one grant is appended, carrying the user's id and email, the token and the time; nothing else changes but updatedAt |
| PdfSharingController.DisplayName | server/controllers/pdfSharingController.js:47 | the user's name, or the email when the name is empty |
| PdfSharingController.ShareThenAccess | server/controllers/pdfSharingController.js:36-44 | after a grant, grantees stay unique and the user passes external access and may comment, and the pdf is in the user's shared-with-me list |
| PdfSharingController.WithPublicToken | server/controllers/pdfSharingController.js:67-69 | the token is set and the time stamped; nothing else changes |
| PdfSharingController.OnlyNewTokenOpens | server/controllers/pdfSharingController.js:67-69 | after a new token is set, the public view opens exactly for that token, not for any older one |
| PdfSharingController.ViewPublicPdf | server/controllers/pdfSharingController.js:86-107 | 404 for an unknown id; the view exactly when a non-empty public token equals the query's; otherwise 403 "Invalid public link" |
| PdfSharingController.PublicViewIgnoresIdentity | server/controllers/pdfSharingController.js:86-107 | changing a pdf's owner or grants does not change the anonymous view's answer |
| PdfSharingController.GetExternalAccess | server/controllers/pdfSharingController.js:110-139 | 404 for an unknown id; the view exactly for users with a grant; otherwise 403 |
| PdfSharingController.OwnerWithoutGrantRefused | server/controllers/pdfSharingController.js:119-127 | the owner without a grant of their own is refused |
| PdfSharingController.GetSharedWithMe | server/controllers/pdfSharingController.js:143-182 | count is the list's length; the items are exactly those of the pdfs granted to the caller, newest first |
| PdfSharingController.NewestFirstTotal | server/controllers/pdfSharingController.js:153 | ordering newest first relates every pair; PdfSharingController.NewestFirst is `.sort({ createdAt: -1 })` |
| PdfSharingController.ItemsOf | server/controllers/pdfSharingController.js:156-172 | one item per pdf, in order, from the caller's grant; each item is PdfSharingController.SharedItemOf, the `map` of lines 156-172: the pdf's fields with the first grant's date and token |
| PdfSharingController.SharedListSound | server/controllers/pdfSharingController.js:148-172 | every listed item comes from a pdf granted to the caller |
| PdfSharingController.SharedListComplete | server/controllers/pdfSharingController.js:148-172 | every pdf granted to the caller is listed |
| PdfSharingController.NameThenEmailTotal | server/controllers/pdfSharingController.js:190 | ordering by name then email relates every pair; PdfSharingController.NameThenEmail is `.sort({ name: 1, email: 1 })` |
| PdfSharingController.GetAllUsers | server/controllers/pdfSharingController.js:185-200 | count is the length; the list is exactly the summaries of the users other than the caller, ordered by name then email; PdfSharingController.SummaryOf is the `.select("name email")` projection of line 189, with the id |
| PdfSharingController.UserListOrdered | server/controllers/pdfSharingController.js:190 | neighbours are ordered by name, and by email among equal names |
| PdfSharingController.UserListSound | server/controllers/pdfSharingController.js:188 | no listed user is the caller, and each is a stored user's summary |
| PdfSharingController.UserListComplete | server/controllers/pdfSharingController.js:188 | every other stored user is listed |
| Sorting.SortBy | server/controllers/commentController.js:52 | a permutation of its input, sorted when the order is total |
| Text.Split | server/middlewares/authMiddlewares.js:10 | `split` gives at least one piece, and no piece contains the separator |
| Text.JoinSplit | server/middlewares/authMiddlewares.js:10 | joining the pieces of `split` with the separator gives back the string; Text.Join is `parts.join(sep)` |
| Text.Lower | client/src/pages/Dashboard.jsx:73 | `toLowerCase` keeps the length and lowers each ASCII letter |
| Text.TrimIsPadded | client/src/pages/Login.jsx:30 | Text.Trim, `trim`, gives the part of the string with only whitespace before and after it, and that part neither starts nor ends with whitespace |
| Text.BlankIffAllSpace | client/src/pages/Dashboard.jsx:71 | `!s.trim()` holds exactly when every character is whitespace |
| Text.ContainsIffOccurs | client/src/pages/Dashboard.jsx:73 | Text.Contains, `includes`, holds exactly when the string occurs at some position |
| Database.Database.ShareWithEmail | server/controllers/pdfSharingController.js:6-53 | keeps the invariant; a refusal changes nothing and carries its code; success appends the grant and replies "Access granted to" with the display name |
| Database.Database.GeneratePublicLink | server/controllers/pdfSharingController.js:56-83 | keeps the invariant; the guard's refusals change nothing; success sets the fresh token and replies with the link, after which the public view opens for that token only and no longer for the old one |
| Database.Database.CreateComment | server/controllers/commentController.js:5-40 | keeps the invariant; refusals change nothing; success appends a comment with the caller, pdf and text, and replies 201 |
| Database.Database.UpdateComment | server/controllers/commentController.js:62-90 | keeps the invariant; only the text and updatedAt of that comment change |
| Database.Database.DeleteComment | server/controllers/commentController.js:93-114 | keeps the invariant; exactly that comment goes |
| Database.Database.UploadPdf | server/controllers/pdfController.js:9-33 | keeps the invariant; the record UploadCheck builds is appended, or nothing changes |
| Database.Database.UpdatePdf | server/controllers/pdfController.js:61-77 | keeps the invariant; only the title and updatedAt of the owner's pdf change |
| Database.Database.DeletePdf | server/controllers/pdfController.js:80-97 | corrected (the hook of Records.PreDeleteOne runs): keeps the invariant; the guard's refusals and a Drive failure change nothing; otherwise the owner's pdf and all its comments go and the reply is "PDF deleted successfully" |
| Database.Database.RegisterUser | server/controllers/userControllers.js:7-38 | keeps the invariant; a passed check appends the user and replies 201 with the payload |
| Database.CascadeKeepsInvariant | server/models/pdfModels.js:30-38 | removing a pdf together with its comments keeps the store invariant |
| Database.AddCommentKeepsInvariant | server/controllers/commentController.js:24-30 | appending a fresh comment on an existing pdf keeps the store invariant |
| Database.ReplaceKeepsInvariant | server/controllers/pdfSharingController.js:44 | saving a record under the same id keeps the store invariant |
| Routes.AppRoutes | server/server.js:38-41 | the four routers mounted in order give 18 routes |
| Routes.MountedMatch | server/server.js:38-41 | a pattern under a mount prefix matches exactly the paths that start with the prefix and whose rest the router's pattern matches |
| Routes.Resolve | server/server.js:38-41 | the first route, in declaration order, whose verb and pattern match; None exactly when none matches. Routes.AppRoutes is the table, Routes.PatternMatches and Routes.SegMatches are Express's matching: a literal segment matches itself and a `:param` any non-empty segment |
| Routes.HandlerFor | server/server.js:38-41 | the handler of the route Resolve picks |
| Routes.UserRouterRegister | server/routes/userRoutes.js:6 | POST /register reaches registerUser |
| Routes.UserRouterLogin | server/routes/userRoutes.js:8 | POST /login reaches loginUser |
| Routes.UserRouterAll | server/routes/userRoutes.js:10 | GET /all reaches getAllUsers |
| Routes.PdfRouterUpload | server/routes/pdfRoutes.js:14 | POST /upload reaches uploadPdf |
| Routes.PdfRouterMine | server/routes/pdfRoutes.js:15 | GET /my-pdfs reaches getMyPdfs |
| Routes.PdfRouterId | server/routes/pdfRoutes.js:16-18 | GET, PUT and DELETE on an id reach the details, update and delete handlers |
| Routes.SharingRouterShare | server/routes/pdfSharingRoutes.js:14-15 | POST /:id/share/email and /:id/share/public reach their handlers |
| Routes.SharingRouterView | server/routes/pdfSharingRoutes.js:18 | GET /:id/view reaches viewPublicPdf |
| Routes.SharingRouterExternal | server/routes/pdfSharingRoutes.js:19 | GET /:id/external-access reaches getExternalAccess |
| Routes.SharingRouterSharedWithMe | server/routes/pdfSharingRoutes.js:21 | GET /shared-with-me reaches getSharedWithMe |
| Routes.SharingRouterUsers | server/routes/pdfSharingRoutes.js:24 | GET /users reaches getAllUsers |
| Routes.CommentRouterOnPdf | server/routes/commentRoutes.js:12-13 | POST and GET on /:pdfId/comments reach createComment and getComments |
| Routes.CommentRouterById | server/routes/commentRoutes.js:14-15 | PUT and DELETE on /comments/:commentId reach updateComment and deleteComment |
| Routes.RegisterAndLoginRoutes | server/server.js:38 | POST /api/users/register and /api/users/login reach their handlers |
| Routes.UploadRoute | server/server.js:39 | POST /api/pdfs/upload reaches uploadPdf |
| Routes.MyPdfsBeforeId | server/routes/pdfRoutes.js:15-16 | GET /api/pdfs/my-pdfs reaches getMyPdfs, not the `:id` route declared after it |
| Routes.PdfIdRoute | server/routes/pdfRoutes.js:16-18 | any other id under /api/pdfs reaches the id handlers |
| Routes.ShareEmailRoute | server/routes/pdfSharingRoutes.js:14 | POST /api/pdf-sharing/:id/share/email reaches shareWithEmail |
| Routes.SharePublicRoute | server/routes/pdfSharingRoutes.js:15 | POST /api/pdf-sharing/:id/share/public reaches generatePublicLink |
| Routes.PublicViewRoute | server/routes/pdfSharingRoutes.js:18 | GET /api/pdf-sharing/:id/view reaches viewPublicPdf |
| Routes.ExternalAccessRoute | server/routes/pdfSharingRoutes.js:19 | GET /api/pdf-sharing/:id/external-access reaches getExternalAccess |
| Routes.SharedWithMeRoute | server/routes/pdfSharingRoutes.js:21 | GET /api/pdf-sharing/shared-with-me reaches getSharedWithMe |
| Routes.SharingUsersRoute | server/routes/pdfSharingRoutes.js:24 | GET /api/pdf-sharing/users reaches getAllUsers |
| Routes.UsersListTwice | server/routes/userRoutes.js:10 | /api/users/all and /api/pdf-sharing/users run the same handler |
| Routes.CommentOnPdfRoutes | server/server.js:41 | POST and GET /api/pdf/:pdfId/comments reach createComment and getComments |
| Routes.CommentByIdRoutes | server/server.js:41 | PUT and DELETE /api/pdf/comments/:commentId reach updateComment and deleteComment |
| Routes.RouteFlags | server/routes/pdfSharingRoutes.js:18 | exactly the public view, the comment list, register and login skip auth; only the upload route runs the upload step, and it is authenticated |
| Routes.Dispatch | server/server.js:38-41 | no route is Express's 404; an anonymous route runs without a caller; otherwise auth's refusal or the handler with the authenticated user |
| Routes.AnonymousReach | server/routes/commentRoutes.js:13 | without an Authorization header only the four anonymous handlers run |
| Routes.AnonymousCommentRefused | server/routes/commentRoutes.js:12 | posting a comment without a header is refused with 401 before the handler |
| Routes.UploadStep | server/routes/pdfRoutes.js:14 | the upload step with the error middleware as written: an error comes only from a rejection; a wrong type under the `pdf` field is 500 "Only PDF files allowed"; an oversize pdf is 400 "File too large. Maximum size is 50MB."; any other status than 400 comes only from a wrong type; an accepted part goes on to uploadPdf |
| Routes.UploadStepCorrected | server/routes/pdfRoutes.js:14 | corrected: with HandleError every rejection is 400, a wrong type is 400 "Only PDF files are allowed" and an oversize pdf is told the 10MB limit; an accepted part goes on to uploadPdf |
| ClientValues.Received | client/src/utils/api.js:12-22 | a successful reply becomes Succeeded with its value; a refusal is Rejected, with its text under the controller's key |
| ClientValues.ToastText | client/src/components/UploadPdfModal.jsx:67 | `error.response?.data?.message \|\| fallback`: the text only when it is a non-empty `message` |
| AuthContext.AuthHeader | client/src/contexts/AuthContext.jsx:31-33 | "Bearer " then the token; the middleware reads back a token without spaces |
| AuthContext.FailureMessage | client/src/contexts/AuthContext.jsx:37-39 | the answer's message when it has a non-empty one, else the fallback |
| AuthContext.Restored | client/src/contexts/AuthContext.jsx:12-22 | loading ends; a stored user is restored with its Bearer header; without one nothing else changes |
| AuthContext.SignedIn | client/src/contexts/AuthContext.jsx:27-35 | the answer is the user, is stored under "user", and sets the header |
| AuthContext.SignedOut | client/src/contexts/AuthContext.jsx:62-66 | only the stored user and the header are removed, and the user is cleared |
| AuthContext.ReloadAfterSignIn | client/src/contexts/AuthContext.jsx:12-35 | a reload after login restores the same user and header |
| AuthContext.ReloadAfterSignOut | client/src/contexts/AuthContext.jsx:12-22 | a reload after logout finds no user and sets no header |
| AuthContext.SignOutIdempotent | client/src/contexts/AuthContext.jsx:62-66 | logging out twice is logging out once |
| AuthContext.Session.constructor | client/src/contexts/AuthContext.jsx:9-10 | no user, loading, and the browser's storage and headers |
| AuthContext.Session.Init | client/src/contexts/AuthContext.jsx:12-22 | the state becomes Restored of the old one |
| AuthContext.Session.Accept | client/src/contexts/AuthContext.jsx:27-35 | the state becomes SignedIn with the answer |
| AuthContext.Session.Login | client/src/contexts/AuthContext.jsx:24-41 | success signs in with the answer; a failure leaves the state and throws an error with no response, whose message is FailureMessage with "Login failed" |
| AuthContext.Session.Register | client/src/contexts/AuthContext.jsx:43-60 | as login, with "Registration failed" |
| AuthContext.Session.Logout | client/src/contexts/AuthContext.jsx:62-66 | the state becomes SignedOut of the old one |
| AuthContext.BadCredentialsSurfaceMessage | client/src/contexts/AuthContext.jsx:37-39 | for an unknown email or a wrong password, the server's 401 gives the message "Invalid email or password" |
| LoginPage.EmailRegexIffWellFormed | client/src/pages/Login.jsx:29 | the email pattern accepts exactly the strings without whitespace, with one `@` after something, and a `.` in the domain that is neither its first nor its last character; LoginPage.EmailRegexTest is `emailRegex.test` of lines 29-30 |
| LoginPage.FormErrors | client/src/pages/Login.jsx:23-41 | an email error exactly when the email is blank ("Email is required") or fails the pattern after trimming; a password error exactly when it is empty; no other keys |
| LoginPage.NoErrorsIffBothFieldsPass | client/src/pages/Login.jsx:39-40 | the form passes exactly when both fields do |
| LoginPage.PasswordNotTrimmed | client/src/pages/Login.jsx:35-37 | a password of spaces passes |
| LoginPage.FailureToast | client/src/pages/Login.jsx:69-78 | 404 and 401 have fixed toasts; other answers show their message or the generic one; no response gives the generic one |
| LoginPage.LoginFailureToast | client/src/pages/Login.jsx:64-78 | through the session, every failed login shows "Login failed. Please try again." |
| LoginPage.LoginForm.constructor | client/src/pages/Login.jsx:7-12 | empty fields, no errors, not loading |
| LoginPage.LoginForm.ValidateForm | client/src/pages/Login.jsx:23-41 | the error map becomes FormErrors of the fields, and the result says whether it is empty |
| LoginPage.LoginForm.HandleChange | client/src/pages/Login.jsx:43-50 | the field takes the value; an error shown for that field is cleared to ""; nothing else changes |
| LoginPage.LoginForm.HandleSubmit | client/src/pages/Login.jsx:53-82 | an invalid form never calls login; otherwise the trimmed email is sent, success signs in and navigates, failure shows the toast, and loading ends |
| Dashboard.SearchByTitle | client/src/pages/Dashboard.jsx:70-82 | a blank query gives the whole list; otherwise exactly the entries whose title contains the query, ignoring ASCII case, in order |
| Dashboard.FoundNeverExceedsTotal | client/src/pages/Dashboard.jsx:137-138 | "x of y PDFs found" never has x above y |
| Dashboard.SearchIgnoresCase | client/src/pages/Dashboard.jsx:72-74 | lowering the query's case does not change the result |
| Dashboard.HandleDeletePdf | client/src/pages/Dashboard.jsx:49-62 | a request is sent exactly when confirmed; a refusal keeps the list; success drops exactly the entries with that id, keeping order |
| Dashboard.StoredSharedAsWritten | client/src/pages/Dashboard.jsx:40 | what is stored is the whole `{pdfs, count}` object, not its list |
| Dashboard.DashboardAsWritten | client/src/pages/Dashboard.jsx:77-82 | on the stored object, a non-blank query throws on either tab, and the shared tab throws once loaded; otherwise a tab still loading shows its spinner, the shared tab on an array lists its search result, and the my-pdfs tab lists the search of the caller's pdfs |
| Dashboard.SharedTabAlwaysThrowsAsWritten | client/src/pages/Dashboard.jsx:312 | once the server's answer arrives, the shared tab always fails, and so does any search |
| Dashboard.Dashboard | client/src/pages/Dashboard.jsx:170-449 | corrected (the shared list read from `pdfs`): never fails; the open tab shows its spinner while loading, else its searched list |
| Dashboard.SharedTabSound | client/src/pages/Dashboard.jsx:370 | corrected (the shared list read from `pdfs`): everything the shared tab lists is an item of a pdf granted to the caller |
| Dashboard.SharedTabComplete | client/src/pages/Dashboard.jsx:370 | corrected (the shared list read from `pdfs`): every pdf granted to the caller whose title matches is listed |
| ShareModal.Candidates | client/src/components/ShareModal.jsx:22-33 | a blank query gives none; otherwise exactly the users whose name or email contains it, ignoring ASCII case, in order |
| ShareModal.StoredUsersAsWritten | client/src/components/ShareModal.jsx:39 | what is stored is the whole `{users, count}` object |
| ShareModal.CandidatesAsWritten | client/src/components/ShareModal.jsx:23-29 | on the stored object a non-blank query throws; on a list it gives Candidates |
| ShareModal.SearchThrowsAsWritten | client/src/components/ShareModal.jsx:24 | as written, every search throws once the users have loaded |
| ShareModal.CandidatesSound | client/src/components/ShareModal.jsx:24-28 | corrected (the list read from `users`): no candidate is the caller, and each is a stored user's summary |
| ShareModal.CandidatesComplete | client/src/components/ShareModal.jsx:24-28 | corrected (the list read from `users`): every other user who matches is a candidate |
| ShareModal.Opened | client/src/components/ShareModal.jsx:8-13 | when the dialog is first mounted the query, the candidates and the link are empty; this state is kept across closing and reopening |
| ShareModal.Typed | client/src/components/ShareModal.jsx:104 | typing keeps the candidates equal to Candidates of the query |
| ShareModal.UsersLoaded | client/src/components/ShareModal.jsx:33 | receiving users keeps the candidates equal to Candidates of the query |
| ShareModal.GrantRequest | client/src/components/ShareModal.jsx:51-54 | a POST to the share-by-email path with exactly the user's id and email |
| ShareModal.GrantRequestReachesShare | client/src/components/ShareModal.jsx:51 | that request reaches shareWithEmail |
| ShareModal.CandidatePassesUserCheck | client/src/components/ShareModal.jsx:48-54 | for the owner, a candidate passes the user checks: the grant succeeds unless the user already has access |
| ShareModal.GrantToastAsWritten | client/src/components/ShareModal.jsx:60 | the toast reads only `message` |
| ShareModal.RefusalReasonHiddenAsWritten | client/src/components/ShareModal.jsx:60 | every refusal of shareWithEmail shows only "Failed to grant access" |
| ShareModal.GrantToast | client/src/components/ShareModal.jsx:60 | corrected: the text under `message` or `error` when non-empty, else the fallback |
| ShareModal.RefusalReasonShown | client/src/components/ShareModal.jsx:60 | corrected: with GrantToast, a refusal shows the server's reason |
| ShareModal.AfterGrant | client/src/components/ShareModal.jsx:55-60 | success clears the query and candidates and names the user; failure keeps the state and shows the toast as written, read only from `message`; ShareModal.Label is `user.name || user.email` |
| ShareModal.RefusedGrantToastsFallback | client/src/components/ShareModal.jsx:55-60 | every refusal of shareWithEmail leaves the dialog as it was and toasts only "Failed to grant access" |
| ShareModal.AfterGrantCorrected | client/src/components/ShareModal.jsx:55-60 | corrected: success as AfterGrant; failure keeps the state and shows GrantToast |
| ShareModal.RefusedGrantToastsReason | client/src/components/ShareModal.jsx:55-60 | corrected: with AfterGrantCorrected, a refusal of shareWithEmail leaves the dialog as it was and toasts the server's reason |
| ShareModal.SuccessToastIsServerMessage | client/src/components/ShareModal.jsx:55 | the success toast names the user exactly as the server's reply does (server/controllers/pdfSharingController.js:47) |
| ShareModal.AfterGrantKeepsConsistent | client/src/components/ShareModal.jsx:55-57 | a grant keeps the candidates equal to Candidates of the query |
| ShareModal.AfterPublicLink | client/src/components/ShareModal.jsx:66-80 | success shows the link and "Public link generated"; failure keeps the state and shows the toast |
| ShareModal.ShownLinkCarriesToken | client/src/components/ShareModal.jsx:70 | the link shown carries the fresh token |
| ShareModal.AvatarInitial | client/src/components/ShareModal.jsx:123 | the first character of the label, upper-cased; empty exactly when the label is; the label is ShareModal.Label, `user.name || user.email` |
| ShareModal.AvatarInitialFacts | client/src/components/ShareModal.jsx:123 | never a lower-case letter; the name's initial, or the email's when the name is empty |
| CommentSection.Populated | server/controllers/commentController.js:51 | `populate("user", "name email")`: the fields kept, and the author's id, name and email exactly when the user is found |
| CommentSection.ReplaceById | client/src/components/CommentSection.jsx:65-69 | same length; each entry with the id is replaced, the others kept |
| CommentSection.WithoutId | client/src/components/CommentSection.jsx:85 | exactly the entries without the id, in order |
| CommentSection.ReplaceKeepsIds | client/src/components/CommentSection.jsx:65-69 | with unique ids, replacing one entry changes only that position and keeps ids unique |
| CommentSection.WithoutListedId | client/src/components/CommentSection.jsx:85 | with unique ids, dropping a listed id removes exactly one entry |
| CommentSection.WithoutKeepsUniqueIds | client/src/components/CommentSection.jsx:85 | dropping an id keeps ids unique |
| CommentSection.UserInfo | client/src/components/CommentSection.jsx:99-108 | "Unknown User" and "U" without an author; else the name, the email or "Unknown User", with its upper-cased initial |
| CommentSection.InitialIsUpper | client/src/components/CommentSection.jsx:105 | the initial is one character and never a lower-case letter |
| CommentSection.ButtonsMatchServer | client/src/components/CommentSection.jsx:111-113 | for a comment whose author is found, the buttons show exactly to those the server lets update, and exactly to those it lets delete; CommentSection.CanModify is `canModifyComment` of lines 111-113 |
| CommentSection.OrphanHidesButtons | client/src/components/CommentSection.jsx:111-113 | when the author's record is gone, nobody sees the buttons, yet the author still passes the update check |
| CommentSection.CommentPanel.constructor | client/src/components/CommentSection.jsx:7-12 | no comments, no draft, not editing |
| CommentSection.CommentPanel.FetchComments | client/src/components/CommentSection.jsx:19-31 | success replaces the list; failure keeps it and shows "Failed to load comments" |
| CommentSection.CommentPanel.TypeComment | client/src/components/CommentSection.jsx:126 | the draft takes the text |
| CommentSection.CommentPanel.SubmitComment | client/src/components/CommentSection.jsx:33-54 | a blank draft sends nothing; otherwise a POST with the untrimmed text; success appends the comment and clears the draft; failure keeps both |
| CommentSection.CommentPanel.StartEditing | client/src/components/CommentSection.jsx:93-96 | editing that comment, with its text |
| CommentSection.CommentPanel.TypeEdit | client/src/components/CommentSection.jsx:214 | the edit text takes the value |
| CommentSection.CommentPanel.CancelEditing | client/src/components/CommentSection.jsx:226 | editing stops; nothing else changes |
| CommentSection.CommentPanel.EditComment | client/src/components/CommentSection.jsx:56-76 | a blank edit sends nothing; otherwise a PUT; success replaces the comment by id and stops editing; failure keeps the list |
| CommentSection.CommentPanel.DeleteComment | client/src/components/CommentSection.jsx:78-91 | nothing without confirmation; otherwise a DELETE; success drops the comment by id; failure keeps the list |
| UploadModal.DefaultTitle | client/src/components/UploadPdfModal.jsx:21 | the name cut at the match of `/\.[^/.]+$/` when there is one, else the whole name |
| UploadModal.DefaultTitleExamples | client/src/components/UploadPdfModal.jsx:21 | only the last extension goes; a leading dot counts; a trailing dot, or a `/` after the last dot, keeps the name |
| UploadModal.SubmittedTitle | client/src/components/UploadPdfModal.jsx:40 | the typed title, or the file name when it is empty |
| UploadModal.UploadForm.constructor | client/src/components/UploadPdfModal.jsx:8-11 | no title, no file, not uploading, no progress |
| UploadModal.UploadForm.FileChange | client/src/components/UploadPdfModal.jsx:15-28 | a pdf becomes the file and names an empty title; anything else keeps file and title, clears the input and shows "Please select a valid PDF file" |
| UploadModal.UploadForm.TypeTitle | client/src/components/UploadPdfModal.jsx:91 | the title takes the text |
| UploadModal.UploadForm.Submit | client/src/components/UploadPdfModal.jsx:30-71 | without a file nothing is sent; otherwise the file and SubmittedTitle are sent; success resets the form; failure keeps it and shows ToastText; uploading ends |
| UploadModal.ClientCheckIsServerFilter | client/src/components/UploadPdfModal.jsx:17 | the dialog accepts exactly what the server's filter accepts |
| UploadModal.SentPdfIsStoredWithSentTitle | client/src/components/UploadPdfModal.jsx:38-46 | a pdf of at most 10 MB passes the upload step, and the title stored is the one sent |
| UploadModal.TooLargeToast | client/src/components/UploadPdfModal.jsx:67 | a pdf over 10 MB is refused with 400, and the toast shows "File too large. Maximum size is 50MB." |
| UploadModal.TooLargeToastCorrected | client/src/components/UploadPdfModal.jsx:67 | corrected: with UploadStepCorrected the refusal is 400 and the toast names the 10MB limit |

## Left out

- Google Drive is an outcome parameter: `uploadToDrive`, `renameInDrive` and `deleteFromDrive` are modelled only as success or failure.
- `jwt.sign`/`jwt.verify`, bcrypt's `comparePassword` and `uuidv4` are function or value parameters. server/models/userModels.js is not part of this model, beyond the user fields the handlers read.
- Express, Mongoose and multer are modelled only in the behaviour the handlers rely on. Three parts are left out:
  - Express's case-insensitive and trailing-slash matching;
  - Mongoose's ObjectId cast errors, which answer 500;
  - the order in which multer reads parts, taken as at most one file part.
- The disk storage (`mkdirSync`, writing the file) and the `destination` callback are left out; only the stored name, type and size are kept.
- ShareModal.Opened: only the first mount starts from the empty state. Closing hides the dialog without unmounting it, so a reopened dialog carries on from the state it was closed with, which the model expresses by passing that state on unchanged; there is no separate close or reopen operation.
- Ids are compared verbatim as strings, while Mongoose casts `req.params.id` to an ObjectId, so a hex id in another letter case finds the same document in the source but not in the model.
- Concurrency is left out: each handler runs alone, so interleaved requests and their lost updates are not modelled.
- Strings are ASCII for case and whitespace: `toLowerCase`, `toUpperCase` and `trim` on non-ASCII characters are not modelled.
- The server's home route, `listen`, dotenv and CORS are not modelled.
- getSharedWithMe populates `uploadedBy`; the model gives the owner's id instead of the populated name and email.
- The `success` and `details` fields of some replies are not modelled.
- A stored grant without `userId` is not modelled: its `.toString()` throws and gives 500. The `Database` invariant rules such grants out.
- The client's upload progress percentages are not computed; the last reported value is a parameter of `UploadModal.UploadForm.Submit`.
- UploadModal.UploadForm.Submit: the `onUploadSuccess(response.data)` call of client/src/components/UploadPdfModal.jsx:59 is not modelled, because it is the dashboard's callback (client/src/pages/Dashboard.jsx:64-67), which refetches the list from the server and closes the dialog; the model ends with the dialog's own state.
- Rendering is not modelled, beyond which list or error each tab shows. Toasts are their strings; `window.confirm` is a boolean; clipboard copy and navigation are not modelled.
- client/src/App.jsx, the navigation bar, the register page beyond `AuthContext.Session.Register` and the PDF viewing pages are not part of this model.
- The 401 interceptor of client/src/utils/api.js, which clears the stored user and redirects, is not modelled.
- localStorage holds values, not their JSON serialization.
- Request bodies hold only strings.
- ShareModal's "Failed to load users" path and the dashboard's "Failed to load your PDFs" toast are not modelled, since they change no list state the model keeps.
- AuthContext.Session.Login: the thrown error's exact JavaScript object is reduced to its message and the absent response.

## Findings

| source | as written | input that shows it | evidently intended | confidence | as-written member | corrected member |
|---|---|---|---|---|---|---|
| server/models/pdfModels.js:30-38 | the pre-deleteOne hook calls `Comment.deleteMany` but the file never imports the Comment model, and deletePdf's own cascade is commented out (server/controllers/pdfController.js:89) | an owner's DELETE /api/pdfs/:id with Drive working | the pdf and its comments are removed, and the reply is "PDF deleted successfully" | not executed | PdfController.DeleteAsWrittenLosesFile | Database.Database.DeletePdf |
| server/server.js:56 | the handler tests for "Only PDF files are allowed!" while the filter rejects with "Only PDF files allowed" (server/config/multerConfig.js:26) | a text/plain file sent as `pdf` to POST /api/pdfs/upload | a 400 for a wrong file type | not executed | ErrorHandler.RejectedFileIsServerErrorAsWritten | ErrorHandler.UploadRejectionsAreClientErrors |
| server/server.js:51 | the size refusal says "Maximum size is 50MB" | any file over 10 MB | the message names the 10 MB limit set in server/config/multerConfig.js:21 | not executed | ErrorHandler.SizeMessageMisstatesLimit | ErrorHandler.HandleError |
| client/src/pages/Dashboard.jsx:40 | stores `response.data`, the `{pdfs, count}` object, then filters and maps it as an array (lines 79, 312, 370) | opening the shared tab after a successful fetch, or typing any search | the tab lists the `pdfs` array and the search filters it | not executed | Dashboard.SharedTabAlwaysThrowsAsWritten | Dashboard.SharedTabSound |
| client/src/components/ShareModal.jsx:39 | stores `response.data`, the `{users, count}` object, then calls `.filter` on it (line 24) | typing any search after the users have loaded | candidates are filtered from the `users` array | not executed | ShareModal.SearchThrowsAsWritten | ShareModal.CandidatesSound |
| client/src/components/ShareModal.jsx:60 | the toast reads `data.message`, while every refusal of shareWithEmail sends `error` (server/controllers/pdfSharingController.js:10-33) | granting access to a user who already has it | the toast shows "User already has access to this PDF" | not executed | ShareModal.RefusalReasonHiddenAsWritten | ShareModal.RefusalReasonShown |
