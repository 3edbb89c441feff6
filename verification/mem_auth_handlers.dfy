/** The in-memory authentication endpoints: a package-level slice of users
    with their bcrypt hashes and the next id, JWT issue, and a middleware
    that trusts any valid token without looking the user up. */
module MemoryAuth {
  import opened Wrappers
  import opened Seqs
  import opened Http
  import Text
  import Jwt
  import Decimal
  import Bcrypt
  import AuthHandler

  /** A stored `User`: the profile and the bcrypt hash of the password. */
  datatype StoredUser = StoredUser(id: int, firstName: string, lastName: string, email: string, password: Bcrypt.Hash)

  datatype RegisterRequest = RegisterRequest(firstName: string, lastName: string, email: string, password: string)

  datatype LoginRequest = LoginRequest(email: string, password: string)

  /** `users` and `nextUserID`. */
  datatype Users = Users(users: seq<StoredUser>, nextId: int)

  const Initial: Users := Users([], 1)

  function UserId(u: StoredUser): int {
    u.id
  }

  function EmailIs(email: string): StoredUser -> bool {
    (u: StoredUser) => u.email == email
  }

  function UserIdIs(id: int): StoredUser -> bool {
    (u: StoredUser) => u.id == id
  }

  /** The user as written into a reply: without the password. */
  function View(u: StoredUser): (v: AuthHandler.AuthUser)
    ensures v.id == u.id && v.email == u.email && v.firstName == u.firstName && v.lastName == u.lastName
  {
    AuthHandler.AuthUser(u.id, u.firstName, u.lastName, u.email)
  }

  /** Ids increase and lie below the next id; no two users share an
      e-mail. */
  ghost predicate Inv(s: Users) {
    Increasing(s.users, UserId) && KeysBelow(s.users, UserId, s.nextId)
    && forall i, j :: 0 <= i < j < |s.users| ==> s.users[i].email != s.users[j].email
  }

  predicate EmailTaken(s: Users, email: string) {
    exists u :: u in s.users && u.email == email
  }

  /** generateJWT at time `now`: it carries no token id and cannot fail. */
  function GenerateJwt(u: StoredUser, now: int): (t: Jwt.Token)
    ensures t.alg == Jwt.HS256 && t.key == Jwt.Secret
    ensures t.claims.userId == u.id && t.claims.email == u.email
    ensures t.claims.expiresAt == Some(now + Jwt.Lifetime)
    ensures t.claims.issuedAt == Some(now) && t.claims.notBefore == Some(now)
    ensures t.claims.issuer == Jwt.Issuer && t.claims.subject == Decimal.Itoa(u.id) && t.claims.id == ""
  {
    Jwt.SignHS256(Jwt.IssueClaims(u.id, u.email, now, ""), Jwt.Secret)
  }

  /** POST /register. Call 0 is bcrypt. */
  function Register(s: Users, body: Option<RegisterRequest>, salt: string, now: int, fault: Fault)
    : (r: Step<Users, AuthHandler.AuthResponse>)
    ensures body.None? ==> r == Step(s, Failure(StatusBadRequest, "Invalid request body"))
    ensures body.Some? && (body.value.email == "" || body.value.password == "") ==>
              r == Step(s, Failure(StatusBadRequest, "Email and password are required"))
    ensures body.Some? && body.value.email != "" && body.value.password != "" && EmailTaken(s, body.value.email) ==>
              r == Step(s, Failure(StatusConflict, "Email already exists"))
    ensures r.out.Status() == StatusCreated <==>
              body.Some? && body.value.email != "" && body.value.password != ""
              && !EmailTaken(s, body.value.email) && !fault.At(0)
    ensures r.out.Status() != StatusCreated ==> r.state == s
    ensures r.out.Status() == StatusCreated ==>
              var u := StoredUser(s.nextId, body.value.firstName, body.value.lastName, body.value.email,
                                  Bcrypt.GenerateFromPassword(body.value.password, salt));
              r.state == Users(s.users + [u], s.nextId + 1)
              && r.out == Reply(StatusCreated, AuthHandler.AuthResponse(GenerateJwt(u, now), View(u)))
  {
    match body
    case None => Step(s, Failure(StatusBadRequest, "Invalid request body"))
    case Some(req) =>
      if req.email == "" || req.password == "" then
        Step(s, Failure(StatusBadRequest, "Email and password are required"))
      else if EmailTaken(s, req.email) then Step(s, Failure(StatusConflict, "Email already exists"))
      else if fault.At(0) then Step(s, Failure(StatusInternalServerError, "Error processing password"))
      else
        var u := StoredUser(s.nextId, req.firstName, req.lastName, req.email,
                            Bcrypt.GenerateFromPassword(req.password, salt));
        Step(Users(s.users + [u], s.nextId + 1),
             Reply(StatusCreated, AuthHandler.AuthResponse(GenerateJwt(u, now), View(u))))
  }

  /** POST /login: the first user with the e-mail must accept the
      password; an unknown e-mail and a wrong password are the same 401. */
  function Login(s: Users, body: Option<LoginRequest>, now: int): (r: Response<AuthHandler.AuthResponse>)
    ensures body.None? ==> r == Failure(StatusBadRequest, "Invalid request body")
    ensures body.Some? && (body.value.email == "" || body.value.password == "") ==>
              r == Failure(StatusBadRequest, "Email and password are required")
    ensures body.Some? && body.value.email != "" && body.value.password != "" && r.Status() != StatusOK ==>
              r == Failure(StatusUnauthorized, "Invalid credentials")
    ensures r.Status() == StatusOK ==>
              body.Some? && r.Reply?
              && exists i :: 0 <= i < |s.users| && s.users[i].email == body.value.email
                             && (forall j :: 0 <= j < i ==> s.users[j].email != body.value.email)
                             && Bcrypt.CompareHashAndPassword(s.users[i].password, body.value.password)
                             && r.body == AuthHandler.AuthResponse(GenerateJwt(s.users[i], now), View(s.users[i]))
    ensures body.Some? && body.value.email != "" && body.value.password != ""
            && (forall u :: u in s.users && u.email == body.value.email ==>
                              !Bcrypt.CompareHashAndPassword(u.password, body.value.password)) ==>
              r == Failure(StatusUnauthorized, "Invalid credentials")
  {
    match body
    case None => Failure(StatusBadRequest, "Invalid request body")
    case Some(req) =>
      if req.email == "" || req.password == "" then Failure(StatusBadRequest, "Email and password are required")
      else
        match IndexOf(s.users, EmailIs(req.email))
        case None => Failure(StatusUnauthorized, "Invalid credentials")
        case Some(i) =>
          assert s.users[i] in s.users;
          assert forall j :: 0 <= j < i ==> s.users[j].email != req.email by {
            forall j | 0 <= j < i ensures s.users[j].email != req.email {
              assert !EmailIs(req.email)(s.users[j]);
            }
          }
          if Bcrypt.CompareHashAndPassword(s.users[i].password, req.password) then
            Reply(StatusOK, AuthHandler.AuthResponse(GenerateJwt(s.users[i], now), View(s.users[i])))
          else Failure(StatusUnauthorized, "Invalid credentials")
  }

  /** GET /profile for the user the middleware admitted. */
  function GetProfile(s: Users, userId: int): (r: Response<AuthHandler.AuthUser>)
    ensures r.Status() == StatusOK <==> exists u :: u in s.users && u.id == userId
    ensures r.Status() != StatusOK ==> r == Failure(StatusNotFound, "User not found")
    ensures r.Status() == StatusOK ==> r.Reply? && exists u :: u in s.users && u.id == userId && r.body == View(u)
  {
    match First(s.users, UserIdIs(userId))
    case None =>
      assert forall u :: u in s.users ==> u.id != userId by {
        forall u | u in s.users ensures u.id != userId {
          assert !UserIdIs(userId)(u);
        }
      }
      Failure(StatusNotFound, "User not found")
    case Some(u) => Reply(StatusOK, View(u))
  }

  /** AuthMiddleware: a missing header, a header that is not a Bearer
      token, and a token that does not verify are rejected; the user is not
      looked up. */
  function Middleware(header: string, decode: string -> Option<Jwt.Token>, now: int): (d: AuthHandler.Decision)
    ensures header == "" ==> d == AuthHandler.Rejected("Authorization header required")
    ensures header != "" && !Text.HasPrefix(header, AuthHandler.BearerPrefix) ==>
              d == AuthHandler.Rejected("Invalid authorization header format")
    ensures d.Admitted? <==>
              Text.HasPrefix(header, AuthHandler.BearerPrefix) && AuthHandler.Presented(header, decode).Some?
              && Jwt.SignatureVerifies(AuthHandler.Presented(header, decode).value, Jwt.Secret)
              && Jwt.TimeValid(AuthHandler.Presented(header, decode).value.claims, now)
    ensures Text.HasPrefix(header, AuthHandler.BearerPrefix) && !d.Admitted? ==>
              d == AuthHandler.Rejected("Invalid or expired token")
    ensures d.Admitted? ==>
              d.userId == AuthHandler.Presented(header, decode).value.claims.userId
              && d.email == AuthHandler.Presented(header, decode).value.claims.email
  {
    Text.TrimPrefixUnchangedIff(header, AuthHandler.BearerPrefix);
    if header == "" then AuthHandler.Rejected("Authorization header required")
    else
      var tokenString := Text.TrimPrefix(header, AuthHandler.BearerPrefix);
      if tokenString == header then AuthHandler.Rejected("Invalid authorization header format")
      else
        match Jwt.Parse(tokenString, decode, Jwt.Secret, now)
        case None => AuthHandler.Rejected("Invalid or expired token")
        case Some(claims) => AuthHandler.Admitted(claims.userId, claims.email)
  }

  lemma InitialInv()
    ensures Inv(Initial)
  {
  }

  /** Registration keeps ids increasing and e-mails unique. */
  lemma RegisterInv(s: Users, body: Option<RegisterRequest>, salt: string, now: int, fault: Fault)
    requires Inv(s)
    ensures Inv(Register(s, body, salt, now, fault).state)
  {
    var r := Register(s, body, salt, now, fault);
    if r.out.Status() == StatusCreated {
      var u := r.state.users[|s.users|];
      assert r.state.users == s.users + [u];
      SnocIncreasing(s.users, u, UserId);
      forall i, j | 0 <= i < j < |r.state.users| ensures r.state.users[i].email != r.state.users[j].email {
        if j == |s.users| {
          assert r.state.users[i] in s.users;
        }
      }
    }
  }

  /** With unique e-mails, Login answers 200 exactly when some user has
      the e-mail and accepts the password. */
  lemma LoginIff(s: Users, req: LoginRequest, now: int)
    requires Inv(s) && req.email != "" && req.password != ""
    ensures Login(s, Some(req), now).Status() == StatusOK <==>
              exists u :: u in s.users && u.email == req.email && Bcrypt.CompareHashAndPassword(u.password, req.password)
  {
    var login := Login(s, Some(req), now);
    if u :| u in s.users && u.email == req.email && Bcrypt.CompareHashAndPassword(u.password, req.password) {
      match IndexOf(s.users, EmailIs(req.email))
      case None =>
        assert false;
      case Some(i) =>
        var k :| 0 <= k < |s.users| && s.users[k] == u;
        assert EmailIs(req.email)(s.users[i]);
        assert i == k;
    }
  }

  /** A newly registered user can log in at once with the password they
      registered, and the login reports the same user. */
  lemma RegisterThenLogin(s: Users, req: RegisterRequest, salt: string, now: int, fault: Fault, later: int)
    requires Inv(s)
    requires Register(s, Some(req), salt, now, fault).out.Status() == StatusCreated
    ensures var t := Register(s, Some(req), salt, now, fault);
            var login := Login(t.state, Some(LoginRequest(req.email, req.password)), later);
            login.Status() == StatusOK && login.Reply? && t.out.Reply? && login.body.user == t.out.body.user
  {
    var t := Register(s, Some(req), salt, now, fault);
    RegisterInv(s, Some(req), salt, now, fault);
    var u := t.state.users[|s.users|];
    Bcrypt.CompareGenerated(req.password, salt, req.password);
    LoginIff(t.state, LoginRequest(req.email, req.password), later);
    var login := Login(t.state, Some(LoginRequest(req.email, req.password)), later);
    var i :| 0 <= i < |t.state.users| && t.state.users[i].email == req.email
             && login.body == AuthHandler.AuthResponse(GenerateJwt(t.state.users[i], later), View(t.state.users[i]));
    assert i == |s.users|;
  }

  /** A token from a successful login, presented as a Bearer token through a
      decoder that inverts its encoding, is admitted exactly during its
      lifetime, for the user who logged in. */
  lemma LoginThenAdmitted(s: Users, req: LoginRequest, now: int, tokenString: string,
                          decode: string -> Option<Jwt.Token>, later: int)
    requires Login(s, Some(req), now).Status() == StatusOK
    requires decode(tokenString) == Some(Login(s, Some(req), now).body.token)
    ensures Middleware(AuthHandler.BearerPrefix + tokenString, decode, later).Admitted? <==> now <= later < now + Jwt.Lifetime
    ensures now <= later < now + Jwt.Lifetime ==>
              Middleware(AuthHandler.BearerPrefix + tokenString, decode, later)
              == AuthHandler.Admitted(Login(s, Some(req), now).body.user.id, Login(s, Some(req), now).body.user.email)
  {
    var header := AuthHandler.BearerPrefix + tokenString;
    assert header[..|AuthHandler.BearerPrefix|] == AuthHandler.BearerPrefix;
    assert Text.TrimPrefix(header, AuthHandler.BearerPrefix) == tokenString;
  }
}
