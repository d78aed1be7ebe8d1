/**
 * The account routes of src/routes/authRoutes.ts: registration behind the signup guard,
 * and login. Password hashing and comparison (src/utils/password.ts) and token signing
 * (src/utils/jwt.ts) are the parameters `hash`, `compare` and `sign`.
 */
module AuthRoutes {
  import opened Types
  import opened Http
  import opened Validation
  import opened Database
  import SignupGuard

  /** The JSON bodies, with `undefined` as None. */
  datatype SignupRequest = SignupRequest(
    email: Option<string>, password: Option<string>,
    nickname: Option<string>, timestamp: Option<int>)
  datatype LoginRequest = LoginRequest(email: Option<string>, password: Option<string>)

  const FieldsRequired: string := "Email and password are required"
  const InvalidEmailFormat: string := "Invalid email format"
  const PasswordTooShort: string := "Password must be at least 8 characters"
  const EmailTaken: string := "Email already registered"
  const RegistrationFailed: string := "Registration failed"
  const UserCreated: string := "User created successfully"
  const InvalidCredentials: string := "Invalid email or password"
  const LoginSucceeded: string := "Login successful"

  /** `!email || !password`: a field that is absent or the empty string. */
  predicate Missing(field: Option<string>) {
    field.None? || field.value == ""
  }

  /**
   * The first check registration fails, if any, before the store is consulted: missing
   * fields, then the address format, then the password length, each with its own message.
   */
  function RegisterRejection(email: Option<string>, password: Option<string>): (r: Option<Response>)
    ensures r.None? <==>
      !Missing(email) && !Missing(password) && IsValidEmail(email.value) && IsValidPassword(password.value)
    ensures r.Some? ==> r.value.status == 400
    ensures Missing(email) || Missing(password) ==> r == Some(Error(400, FieldsRequired))
    ensures !Missing(email) && !Missing(password) && !IsValidEmail(email.value) ==>
              r == Some(Error(400, InvalidEmailFormat))
    ensures !Missing(email) && !Missing(password) && IsValidEmail(email.value) && !IsValidPassword(password.value) ==>
              r == Some(Error(400, PasswordTooShort))
  {
    if Missing(email) || Missing(password) then Some(Error(400, FieldsRequired))
    else if !IsValidEmail(email.value) then Some(Error(400, InvalidEmailFormat))
    else if !IsValidPassword(password.value) then Some(Error(400, PasswordTooShort))
    else None
  }

  /**
   * The registration handler: the field checks answer 400 and the store is left alone;
   * a taken address answers 409; otherwise the user is stored with the hash of the
   * password, never the password, and 201 carries the new id. The handler is modelled as
   * one uninterrupted step, and then the store's own UNIQUE check cannot fire after the
   * lookup, so the 500 branch is never taken here.
   */
  method Register(db: DatabaseService, email: Option<string>, password: Option<string>,
                  hash: string -> string) returns (res: Response)
    requires db.Valid()
    modifies db
    ensures db.Valid()
    ensures RegisterRejection(email, password).Some? ==>
              res == RegisterRejection(email, password).value && unchanged(db)
    ensures RegisterRejection(email, password).None? && FindUserByEmail(old(db.users), email.value).Some? ==>
              res == Error(409, EmailTaken) && unchanged(db)
    ensures RegisterRejection(email, password).None? && FindUserByEmail(old(db.users), email.value).None? ==>
              res == Response(201, RegisteredBody(UserCreated, old(db.nextUserId)))
              && db.users == old(db.users) + [User(old(db.nextUserId), email.value, hash(password.value), db.clock)]
    ensures res.status != 500
    ensures db.tasks == old(db.tasks)
  {
    var rejection := RegisterRejection(email, password);
    if rejection.Some? {
      return rejection.value;
    }
    var existing := db.GetUserByEmail(email.value);
    if existing.Some? {
      return Error(409, EmailTaken);
    }
    var passwordHash := hash(password.value);
    var created := db.CreateUser(email.value, passwordHash);
    match created {
      case Fail(_) =>
        res := Error(500, RegistrationFailed);
      case Ok(userId) =>
        res := Response(201, RegisteredBody(UserCreated, userId));
    }
  }

  /**
   * POST /api/auth/register: the signup guard runs first, and a request it rejects
   * answers its 429 without reaching the handler or the store. `now` is `Date.now()`.
   */
  method RegisterRoute(db: DatabaseService, req: SignupRequest, now: int, hash: string -> string)
    returns (res: Response)
    requires db.Valid()
    modifies db
    ensures db.Valid()
    ensures SignupGuard.Guard(req.nickname, req.timestamp, now).Reject? ==>
              res == SignupGuard.Guard(req.nickname, req.timestamp, now).response && unchanged(db)
    ensures res.status == 201 <==>
              SignupGuard.Guard(req.nickname, req.timestamp, now).Next?
              && RegisterRejection(req.email, req.password).None?
              && FindUserByEmail(old(db.users), req.email.value).None?
    ensures res.status == 201 ==>
              FindUserByEmail(db.users, req.email.value)
                == Some(User(old(db.nextUserId), req.email.value, hash(req.password.value), db.clock))
    ensures res.status == 201 ==>
              db.users == old(db.users) + [User(old(db.nextUserId), req.email.value, hash(req.password.value), db.clock)]
    ensures res.status != 201 ==> unchanged(db)
    ensures db.tasks == old(db.tasks)
  {
    var verdict := SignupGuard.Guard(req.nickname, req.timestamp, now);
    if verdict.Reject? {
      return verdict.response;
    }
    res := Register(db, req.email, req.password, hash);
    if res.status == 201 {
      FindAppended(old(db.users), User(old(db.nextUserId), req.email.value, hash(req.password.value), db.clock));
    }
  }

  /** A lookup by an address nobody has yet finds the row just appended for it. */
  lemma {:induction false} FindAppended(users: seq<User>, u: User)
    requires FindUserByEmail(users, u.email).None?
    ensures FindUserByEmail(users + [u], u.email) == Some(u)
  {
    if users != [] {
      assert (users + [u])[1..] == users[1..] + [u];
      FindAppended(users[1..], u);
    }
  }

  /**
   * POST /api/auth/login: missing fields answer 400; an unknown address and a wrong
   * password answer the very same 401, so the answer does not tell whether an account
   * exists; a match answers 200 with a token signed over the user's id and address.
   * The store is only read.
   */
  method Login(db: DatabaseService, req: LoginRequest,
               compare: (string, string) -> bool, sign: JwtPayload -> string) returns (res: Response)
    ensures Missing(req.email) || Missing(req.password) ==> res == Error(400, FieldsRequired)
    ensures res.status == 200 <==>
              !Missing(req.email) && !Missing(req.password)
              && FindUserByEmail(db.users, req.email.value).Some?
              && compare(req.password.value, FindUserByEmail(db.users, req.email.value).value.passwordHash)
    ensures res.status == 200 ==>
              var user := FindUserByEmail(db.users, req.email.value).value;
              res.body == LoginBody(LoginSucceeded, sign(JwtPayload(user.id, user.email)), JwtPayload(user.id, user.email))
              && user.email == req.email.value
    ensures !Missing(req.email) && !Missing(req.password) && res.status != 200 ==>
              res == Error(401, InvalidCredentials)
  {
    if Missing(req.email) || Missing(req.password) {
      return Error(400, FieldsRequired);
    }
    var user := db.GetUserByEmail(req.email.value);
    if user.None? {
      return Error(401, InvalidCredentials);
    }
    var isPasswordValid := compare(req.password.value, user.value.passwordHash);
    if !isPasswordValid {
      return Error(401, InvalidCredentials);
    }
    var payload := JwtPayload(user.value.id, user.value.email);
    var token := sign(payload);
    res := Response(200, LoginBody(LoginSucceeded, token, payload));
  }

  /**
   * A fresh registration can log in at once with the same password, provided the
   * comparison accepts a password against its own hash, and the token names the new id.
   */
  method RegisterThenLogin(db: DatabaseService, email: string, password: string,
                           hash: string -> string, compare: (string, string) -> bool,
                           sign: JwtPayload -> string) returns (registered: Response, loggedIn: Response)
    requires db.Valid()
    requires RegisterRejection(Some(email), Some(password)).None?
    requires FindUserByEmail(db.users, email).None?
    requires compare(password, hash(password))
    modifies db
    ensures registered.status == 201 && registered.body.RegisteredBody?
    ensures loggedIn.status == 200 && loggedIn.body.LoginBody?
    ensures loggedIn.body.user == JwtPayload(registered.body.userId, email)
  {
    registered := Register(db, Some(email), Some(password), hash);
    FindAppended(old(db.users), User(old(db.nextUserId), email, hash(password), db.clock));
    loggedIn := Login(db, LoginRequest(Some(email), Some(password)), compare, sign);
  }
}
