/** The browser session of client/src/contexts/AuthContext.jsx: the
    logged-in user, the `loading` flag, the "user" entry of localStorage and
    the Authorization entry of the axios instance's common headers. The
    server's answer to each request is a parameter: `Some(reply)` for an
    HTTP answer, `None` when no answer arrived. */
module AuthContext {
  import opened Seqs
  import opened Http
  import opened Text
  import opened AuthMiddleware
  import opened Records
  import opened UserController

  /** The localStorage key. */
  const UserKey := "user"

  /** The common-header key. */
  const AuthorizationKey := "Authorization"

  const LoginFailed := "Login failed"
  const RegistrationFailed := "Registration failed"

  /** The header value `Bearer ${accessToken}`. When the token has no
      space, the auth middleware reads the same token back out of it. */
  function AuthHeader(token: string): (h: string)
    ensures StartsWith(h, BearerPrefix) && h[|BearerPrefix|..] == token
    ensures NoSpaceChar(token) ==> BearerToken(h) == token
  {
    var h := BearerPrefix + token;
    assert h[..|BearerPrefix|] == BearerPrefix && h[|BearerPrefix|..] == token;
    if NoSpaceChar(token) then HeaderRoundTrip(token); h else h
  }

  /** The status and `message` of an HTTP error answer, as the catch block
      of a caller sees them under `error.response`. */
  datatype ErrorResponse = ErrorResponse(status: int, message: string)

  /** A thrown JavaScript error: its `message` and its `response`, if any. */
  datatype Thrown = Thrown(message: string, response: Option<ErrorResponse>)

  /** `error.response?.data?.message || fallback`. */
  function FailureMessage(reply: Option<Reply<AuthPayload>>, fallback: string): (m: string)
    ensures reply.Some? && reply.value.Err? && reply.value.message != "" ==> m == reply.value.message
    ensures !(reply.Some? && reply.value.Err? && reply.value.message != "") ==> m == fallback
  {
    match reply
    case Some(Err(_, message)) => if message != "" then message else fallback
    case _ => fallback
  }

  /** The session, as one value. */
  datatype SessionState = SessionState(
    user: Option<AuthPayload>,
    loading: bool,
    storage: map<string, AuthPayload>,
    headers: map<string, string>)

  /** The page-load effect: a stored user is restored together with its
      header; loading ends either way. */
  function Restored(s: SessionState): (r: SessionState)
    ensures !r.loading && r.storage == s.storage
    ensures UserKey in s.storage ==>
              r.user == Some(s.storage[UserKey]) &&
              r.headers == s.headers[AuthorizationKey := AuthHeader(s.storage[UserKey].accessToken)]
    ensures UserKey !in s.storage ==> r.user == s.user && r.headers == s.headers
  {
    if UserKey in s.storage then
      var data := s.storage[UserKey];
      SessionState(Some(data), false, s.storage, s.headers[AuthorizationKey := AuthHeader(data.accessToken)])
    else
      s.(loading := false)
  }

  /** The success path shared by login and register: the answer is stored
      under "user", becomes the header and the user. */
  function SignedIn(s: SessionState, data: AuthPayload): (r: SessionState)
    ensures r.user == Some(data) && r.loading == s.loading
    ensures r.storage == s.storage[UserKey := data]
    ensures r.headers == s.headers[AuthorizationKey := AuthHeader(data.accessToken)]
  {
    SessionState(Some(data), s.loading, s.storage[UserKey := data], s.headers[AuthorizationKey := AuthHeader(data.accessToken)])
  }

  /** logout: the entry and the header go, and the user is cleared. */
  function SignedOut(s: SessionState): (r: SessionState)
    ensures r.user.None? && r.loading == s.loading
    ensures UserKey !in r.storage && forall k | k in s.storage && k != UserKey :: k in r.storage && r.storage[k] == s.storage[k]
    ensures AuthorizationKey !in r.headers && forall k | k in s.headers && k != AuthorizationKey :: k in r.headers && r.headers[k] == s.headers[k]
    ensures forall k | k in r.storage :: k in s.storage
    ensures forall k | k in r.headers :: k in s.headers
  {
    SessionState(None, s.loading, s.storage - {UserKey}, s.headers - {AuthorizationKey})
  }

  /** A reload after a login restores the same user and header. */
  lemma ReloadAfterSignIn(s: SessionState, data: AuthPayload)
    ensures Restored(SignedIn(s, data)).user == Some(data)
    ensures Restored(SignedIn(s, data)).headers == SignedIn(s, data).headers
    ensures NoSpaceChar(data.accessToken) ==>
              BearerToken(Restored(SignedIn(s, data)).headers[AuthorizationKey]) == data.accessToken
  {
    var t := SignedIn(s, data);
    assert t.headers[AuthorizationKey := AuthHeader(data.accessToken)] == t.headers;
  }

  /** A reload after a logout finds no user and sets no header. */
  lemma ReloadAfterSignOut(s: SessionState)
    ensures Restored(SignedOut(s)).user == SignedOut(s).user == None
    ensures AuthorizationKey !in Restored(SignedOut(s)).headers
  {
  }

  /** Logging out twice is logging out once. */
  lemma SignOutIdempotent(s: SessionState)
    ensures SignedOut(SignedOut(s)) == SignedOut(s)
  {
    assert SignedOut(s).storage - {UserKey} == SignedOut(s).storage;
    assert SignedOut(s).headers - {AuthorizationKey} == SignedOut(s).headers;
  }

  /** What login or register give back to their caller. */
  datatype SessionResult = Signed(data: AuthPayload) | Failed(error: Thrown)

  /** The AuthProvider's state. */
  class Session {
    var user: Option<AuthPayload>
    var loading: bool
    var storage: map<string, AuthPayload>
    var headers: map<string, string>

    function State(): SessionState
      reads this
    {
      SessionState(user, loading, storage, headers)
    }

    /** `useState(null)`, `useState(true)`, and the browser's storage and
        the axios instance's headers as found. */
    constructor (stored: map<string, AuthPayload>, initialHeaders: map<string, string>)
      ensures State() == SessionState(None, true, stored, initialHeaders)
    {
      user := None;
      loading := true;
      storage := stored;
      headers := initialHeaders;
    }

    /** The mount effect. */
    method Init()
      modifies this
      ensures State() == Restored(old(State()))
    {
      if UserKey in storage {
        var data := storage[UserKey];
        user := Some(data);
        headers := headers[AuthorizationKey := AuthHeader(data.accessToken)];
      }
      loading := false;
    }

    method Accept(data: AuthPayload)
      modifies this
      ensures State() == SignedIn(old(State()), data)
    {
      storage := storage[UserKey := data];
      headers := headers[AuthorizationKey := AuthHeader(data.accessToken)];
      user := Some(data);
    }

    /** `login(email, password)`, where `reply` is the server's answer to
        POST /users/login with that body. On failure nothing changes and a
        plain Error is thrown: it carries a message but no `response`. */
    method Login(email: string, password: string, reply: Option<Reply<AuthPayload>>) returns (r: SessionResult)
      modifies this
      ensures reply.Some? && reply.value.Ok? ==> r == Signed(reply.value.value) && State() == SignedIn(old(State()), reply.value.value)
      ensures !(reply.Some? && reply.value.Ok?) ==>
                r == Failed(Thrown(FailureMessage(reply, LoginFailed), None)) && State() == old(State())
    {
      if reply.Some? && reply.value.Ok? {
        Accept(reply.value.value);
        r := Signed(reply.value.value);
      } else {
        r := Failed(Thrown(FailureMessage(reply, LoginFailed), None));
      }
    }

    /** `register(userData)`: as login, against POST /users/register, with
        its own fallback message. `form` is `userData`, which only goes to
        the server; the session keeps nothing of it, and `reply` is the
        server's answer. */
    method Register(form: map<string, string>, reply: Option<Reply<AuthPayload>>) returns (r: SessionResult)
      modifies this
      ensures reply.Some? && reply.value.Ok? ==> r == Signed(reply.value.value) && State() == SignedIn(old(State()), reply.value.value)
      ensures !(reply.Some? && reply.value.Ok?) ==>
                r == Failed(Thrown(FailureMessage(reply, RegistrationFailed), None)) && State() == old(State())
    {
      if reply.Some? && reply.value.Ok? {
        Accept(reply.value.value);
        r := Signed(reply.value.value);
      } else {
        r := Failed(Thrown(FailureMessage(reply, RegistrationFailed), None));
      }
    }

    method Logout()
      modifies this
      ensures State() == SignedOut(old(State()))
    {
      storage := storage - {UserKey};
      headers := headers - {AuthorizationKey};
      user := None;
    }
  }

  /** The server's own answer to a login, seen through the session: an
      unknown email or a wrong password surfaces the server's message. */
  lemma BadCredentialsSurfaceMessage(users: seq<User>, email: string, password: string,
                                     matches: (User, string) -> bool,
                                     accessFor: Id -> string, refreshFor: Id -> string)
    requires email != "" && password != ""
    requires FindUserByEmail(users, email).None? ||
             !matches(users[FindUserByEmail(users, email).value], password)
    ensures FailureMessage(Some(LoginUser(users, email, password, matches, accessFor, refreshFor)), LoginFailed) == BadCredentials
  {
  }
}
