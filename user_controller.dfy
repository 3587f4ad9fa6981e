/** server/controllers/userControllers.js: login, and the checks register
    runs before it creates a user (the creation is
    Database.Database.RegisterUser). Password comparison and token signing
    live in files that are not part of this model; they are parameters. */
module UserController {
  import opened Seqs
  import opened Records
  import opened Http

  /** The JSON both endpoints return on success. */
  datatype AuthPayload = AuthPayload(id: Id, userName: string, name: string, email: string,
                                     accessToken: string, refreshToken: string)

  /** The payload for `u`, with tokens from the two generators. */
  function PayloadOf(u: User, accessFor: Id -> string, refreshFor: Id -> string): (r: AuthPayload)
    ensures r.id == u.id && r.email == u.email && r.name == u.name && r.userName == u.userName
    ensures r.accessToken == accessFor(u.id) && r.refreshToken == refreshFor(u.id)
  {
    AuthPayload(u.id, u.userName, u.name, u.email, accessFor(u.id), refreshFor(u.id))
  }

  /** The payload never carries the password. */
  lemma PayloadHidesPassword(u: User, password: string, accessFor: Id -> string, refreshFor: Id -> string)
    ensures PayloadOf(u.(password := password), accessFor, refreshFor) == PayloadOf(u, accessFor, refreshFor)
  {
  }

  const MissingFields := "Please fill in all fields"
  const BadCredentials := "Invalid email or password"

  /** POST /api/users/login. `matches(u, password)` is `u.comparePassword(password)`. */
  function LoginUser(users: seq<User>, email: string, password: string,
                     matches: (User, string) -> bool,
                     accessFor: Id -> string, refreshFor: Id -> string): (r: Reply<AuthPayload>)
    ensures email == "" || password == "" <==> r == Err(400, MissingFields)
    ensures r.Ok? <==> email != "" && password != "" && FindUserByEmail(users, email).Some?
                       && matches(users[FindUserByEmail(users, email).value], password)
    ensures r.Ok? ==> r == Ok(200, PayloadOf(users[FindUserByEmail(users, email).value], accessFor, refreshFor))
    ensures r.Err? && r.status != 400 ==> r == Err(401, BadCredentials)
  {
    if email == "" || password == "" then Err(400, MissingFields)
    else match FindUserByEmail(users, email)
      case None => Err(401, BadCredentials)
      case Some(i) =>
        if !matches(users[i], password) then Err(401, BadCredentials)
        else Ok(200, PayloadOf(users[i], accessFor, refreshFor))
  }

  /** An unknown email and a wrong password get the same reply, so a caller
      cannot tell which accounts exist. */
  lemma LoginHidesWhichPartFailed(users: seq<User>, email: string, password: string, other: string,
                                  matches: (User, string) -> bool,
                                  accessFor: Id -> string, refreshFor: Id -> string)
    requires email != "" && password != "" && other != ""
    requires FindUserByEmail(users, email).Some? && !matches(users[FindUserByEmail(users, email).value], password)
    requires FindUserByEmail(users, other).None?
    ensures LoginUser(users, email, password, matches, accessFor, refreshFor)
            == LoginUser(users, other, password, matches, accessFor, refreshFor)
  {
  }

  /** registerUser's checks before `User.create`: all four fields (400),
      then 409 only when the email AND the user name are both already in
      use, possibly by two different users. Proceed is `Ok`. */
  function RegisterCheck(users: seq<User>, userName: string, name: string, email: string, password: string): (r: Reply<()>)
    ensures userName == "" || name == "" || email == "" || password == "" <==> r == Err(400, MissingFields)
    ensures r.Ok? <==> userName != "" && name != "" && email != "" && password != ""
                       && !(FindUserByEmail(users, email).Some? && UserNameTaken(users, userName))
    ensures r.Err? && r.status != 400 ==> r == Err(409, "User already exists")
  {
    if userName == "" || name == "" || email == "" || password == "" then Err(400, MissingFields)
    else if FindUserByEmail(users, email).Some? && UserNameTaken(users, userName) then Err(409, "User already exists")
    else Ok(201, ())
  }

  /** As written the duplicate test is a conjunction: a second account with
      an email already in use but a new user name is let through. */
  lemma DuplicateEmailAccepted()
    ensures var users := [User("u1", "alice", "Alice", "a@x.io", "h")];
            RegisterCheck(users, "bob", "Bob", "a@x.io", "pw").Ok?
  {
    var users := [User("u1", "alice", "Alice", "a@x.io", "h")];
    assert !UserNameTaken(users, "bob") by {
      assert users[0].userName != "bob";
    }
  }

  /** Either duplicate alone is let through; both together are refused. */
  lemma RefusedOnlyWhenBothTaken(users: seq<User>, userName: string, name: string, email: string, password: string)
    requires userName != "" && name != "" && email != "" && password != ""
    ensures RegisterCheck(users, userName, name, email, password).Err? <==>
            (exists i | 0 <= i < |users| :: users[i].email == email) && UserNameTaken(users, userName)
  {
    if exists i | 0 <= i < |users| :: users[i].email == email {
      assert FindUserByEmail(users, email).Some?;
    }
  }
}
