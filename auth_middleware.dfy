/** server/middlewares/authMiddlewares.js: the Bearer-header test, the token
    taken out of the header, `jwt.verify` (a parameter), the user lookup and
    the mapping of verification errors to messages. */
module AuthMiddleware {
  import opened Seqs
  import opened Text
  import opened Records

  const BearerPrefix := "Bearer "
  const NoToken := "No token, authorization denied"

  /** `authHeader.split(" ")[1]`, for a header that starts with "Bearer ":
      the text after the first space up to the next space, or to the end. */
  function BearerToken(header: string): (t: string)
    requires StartsWith(header, BearerPrefix)
    ensures NoSpaceChar(t)
    ensures var rest := header[|BearerPrefix|..];
            t == rest || StartsWith(rest, t + " ")
  {
    IndexOfAt(header, ' ', 6);
    var rest := header[7..];
    assert Split(header, ' ') == [header[..6]] + Split(rest, ' ');
    match IndexOf(rest, ' ')
    case None => rest
    case Some(k) =>
      assert rest[..k + 1] == rest[..k] + " ";
      rest[..k]
  }

  predicate NoSpaceChar(s: string) {
    forall i | 0 <= i < |s| :: s[i] != ' '
  }

  /** The token is the second piece of splitting the header at spaces. */
  lemma BearerTokenIsSecondPiece(header: string)
    requires StartsWith(header, BearerPrefix)
    ensures |Split(header, ' ')| >= 2 && BearerToken(header) == Split(header, ' ')[1]
  {
    IndexOfAt(header, ' ', 6);
    var rest := header[7..];
    assert Split(header, ' ') == [header[..6]] + Split(rest, ' ');
  }

  /** A token without spaces comes back out of the header it is put in. */
  lemma HeaderRoundTrip(token: string)
    requires NoSpaceChar(token)
    ensures StartsWith(BearerPrefix + token, BearerPrefix)
    ensures BearerToken(BearerPrefix + token) == token
  {
    var h := BearerPrefix + token;
    assert h[..7] == BearerPrefix;
    assert h[7..] == token;
  }

  /** A second space right after "Bearer" leaves the token empty. */
  lemma DoubleSpaceGivesEmptyToken(x: string)
    ensures StartsWith(BearerPrefix + " " + x, BearerPrefix)
    ensures BearerToken(BearerPrefix + " " + x) == ""
  {
    var h := BearerPrefix + " " + x;
    assert h[..7] == BearerPrefix;
    assert h[7..][0] == ' ';
  }

  /** What `jwt.verify` does with a token: the `id` of its payload, or the
      `name` of the error it throws. */
  datatype Verification = Verified(id: Id) | VerifyFailed(errorName: string)

  /** The catch block's messages. */
  function JwtErrorMessage(errorName: string): (m: string)
    ensures errorName == "TokenExpiredError" ==> m == "Access token expired"
    ensures errorName == "JsonWebTokenError" ==> m == "Invalid token"
    ensures errorName != "TokenExpiredError" && errorName != "JsonWebTokenError" ==> m == "Token is not valid"
  {
    if errorName == "TokenExpiredError" then "Access token expired"
    else if errorName == "JsonWebTokenError" then "Invalid token"
    else "Token is not valid"
  }

  /** The handler runs with `req.user` set, or the request is answered here. */
  datatype AuthOutcome = Authenticated(user: User) | Denied(status: int, message: string)

  predicate HasBearer(header: Option<string>) {
    header.Some? && StartsWith(header.value, BearerPrefix)
  }

  /** `auth(req, res, next)`. `header` is the Authorization header, `verify`
      stands for `jwt.verify` with the server's secret. The attached user is
      loaded with `select("-password")`. */
  function Authenticate(header: Option<string>, users: seq<User>, verify: string -> Verification): (r: AuthOutcome)
    ensures r.Denied? ==> r.status == 401
    ensures !HasBearer(header) <==> r == Denied(401, NoToken)
    ensures HasBearer(header) && verify(BearerToken(header.value)).VerifyFailed? ==>
              r == Denied(401, JwtErrorMessage(verify(BearerToken(header.value)).errorName))
    ensures (HasBearer(header) && verify(BearerToken(header.value)).Verified? &&
             FindUser(users, verify(BearerToken(header.value)).id).None?) ==> r == Denied(401, "User not found")
    ensures r.Authenticated? <==> HasBearer(header) && verify(BearerToken(header.value)).Verified? &&
                                  FindUser(users, verify(BearerToken(header.value)).id).Some?
    ensures r.Authenticated? ==>
              r.user == users[FindUser(users, verify(BearerToken(header.value)).id).value].(password := "")
  {
    if !HasBearer(header) then Denied(401, NoToken)
    else match verify(BearerToken(header.value))
      case VerifyFailed(name) => Denied(401, JwtErrorMessage(name))
      case Verified(id) =>
        match FindUser(users, id)
        case None => Denied(401, "User not found")
        case Some(i) => Authenticated(users[i].(password := ""))
  }

  /** Whoever gets through is a stored user, found by the id in the token. */
  lemma AuthenticatedIsStored(header: Option<string>, users: seq<User>, verify: string -> Verification)
    requires Authenticate(header, users, verify).Authenticated?
    ensures exists i | 0 <= i < |users| :: users[i].id == Authenticate(header, users, verify).user.id
  {
    var i := FindUser(users, verify(BearerToken(header.value)).id).value;
    assert users[i].id == Authenticate(header, users, verify).user.id;
  }
}
