/** The database-backed authentication endpoints and middleware.

    Register and Login validate the body, call the user repository, and on
    success issue a token through generateJWT. The middleware admits a
    request only if the Authorization header carries a Bearer token that
    verifies and whose user still exists. The clock reading, the random
    token id and the token decoder are parameters. */
module AuthHandler {
  import opened Wrappers
  import opened Schema
  import opened Http
  import Text
  import Jwt
  import Decimal
  import Bcrypt
  import UserRepository

  /** The authentication scheme of section 2.1 of RFC 6750. */
  const BearerPrefix: string := "Bearer "

  /** The `User` the handlers write into an AuthResponse: the profile
      without the password hash or the creation time. */
  datatype AuthUser = AuthUser(id: int, firstName: string, lastName: string, email: string)

  /** The body of a successful Register or Login. */
  datatype AuthResponse = AuthResponse(token: Jwt.Token, user: AuthUser)

  function Profile(u: UserRepository.UserResponse): (p: AuthUser)
    ensures p.id == u.id && p.email == u.email && p.firstName == u.firstName && p.lastName == u.lastName
  {
    AuthUser(u.id, u.firstName, u.lastName, u.email)
  }

  /** generateJWT at time `now`. `jti` is the random token id, `None` when
      crypto/rand fails, which is the only way generation fails. */
  function GenerateJwt(user: UserRepository.UserResponse, now: int, jti: Option<string>): (r: Option<Jwt.Token>)
    ensures r.Some? <==> jti.Some?
    ensures r.Some? ==>
              r.value.alg == Jwt.HS256 && r.value.key == Jwt.Secret
              && r.value.claims.userId == user.id && r.value.claims.email == user.email
              && r.value.claims.expiresAt == Some(now + Jwt.Lifetime)
              && r.value.claims.issuedAt == Some(now) && r.value.claims.notBefore == Some(now)
              && r.value.claims.issuer == Jwt.Issuer && r.value.claims.subject == Decimal.Itoa(user.id)
              && r.value.claims.id == jti.value
  {
    match jti
    case None => None
    case Some(id) => Some(Jwt.SignHS256(Jwt.IssueClaims(user.id, user.email, now, id), Jwt.Secret))
  }

  /** Issues the token for an authenticated user: 500 when generation fails. */
  function Issue(user: UserRepository.UserResponse, status: int, now: int, jti: Option<string>): (r: Response<AuthResponse>)
    requires status != StatusInternalServerError
    ensures r.Status() == status <==> jti.Some?
    ensures jti.None? ==> r == Failure(StatusInternalServerError, "Error generating token")
    ensures jti.Some? ==> r.Reply? && r.body.user == Profile(user) && Some(r.body.token) == GenerateJwt(user, now, jti)
  {
    match GenerateJwt(user, now, jti)
    case None => Failure(StatusInternalServerError, "Error generating token")
    case Some(token) => Reply(status, AuthResponse(token, Profile(user)))
  }

  /** The e-mail is already registered. */
  predicate EmailTaken(db: Db, email: string) {
    exists u :: u in db.users && u.email == email
  }

  /** POST /auth/register. A repository error whose text mentions an
      existing e-mail is a 409, any other a 500. The account is created
      before the token: a token failure leaves it in place. */
  function Register(db: Db, body: Option<UserRepository.CreateUserRequest>, salt: string, now: int,
                    jti: Option<string>, fault: Fault): (r: Tx<Response<AuthResponse>>)
    ensures body.None? ==> r == Tx(db, Failure(StatusBadRequest, "Invalid request body"))
    ensures body.Some? && (body.value.email == "" || body.value.password == "") ==>
              r == Tx(db, Failure(StatusBadRequest, "Email and password are required"))
    ensures body.Some? && body.value.email != "" && body.value.password != "" && !fault.At(0)
            && EmailTaken(db, body.value.email) ==>
              r == Tx(db, Failure(StatusConflict, "Email already exists"))
    ensures r.out.Status() == StatusCreated <==>
              body.Some? && body.value.email != "" && body.value.password != "" && fault.Clear(3)
              && !EmailTaken(db, body.value.email) && jti.Some?
    ensures r.db != db ==>
              body.Some? && !EmailTaken(db, body.value.email)
              && r.db.users == db.users + [UserRepository.NewUser(db, body.value, salt)]
    ensures body.Some? && body.value.email != "" && body.value.password != "" && fault.Clear(3)
            && !EmailTaken(db, body.value.email) && jti.None? ==>
              r.out == Failure(StatusInternalServerError, "Error generating token")
              && r.db.users == db.users + [UserRepository.NewUser(db, body.value, salt)]
    ensures body.Some? && body.value.email != "" && body.value.password != ""
            && !(fault.Clear(3) && !EmailTaken(db, body.value.email)) && r.out.Status() != StatusConflict ==>
              r == Tx(db, Failure(StatusInternalServerError, "Error creating user"))
    ensures r.out.Status() == StatusCreated ==>
              r.out.Reply? && r.out.body.user.id == db.nextUserId && r.out.body.user.email == body.value.email
              && r.out.body.token.claims.userId == db.nextUserId
  {
    match body
    case None => Tx(db, Failure(StatusBadRequest, "Invalid request body"))
    case Some(req) =>
      if req.email == "" || req.password == "" then
        Tx(db, Failure(StatusBadRequest, "Email and password are required"))
      else
        var t := UserRepository.CreateUser(db, req, salt, fault);
        match t.out
        case Err(e) =>
          Text.ContainsSelfAndEmpty(UserRepository.EmailExists);
          if Text.Contains(e.msg, "email already exists") then Tx(t.db, Failure(StatusConflict, "Email already exists"))
          else Tx(t.db, Failure(StatusInternalServerError, "Error creating user"))
        case Ok(user) => Tx(t.db, Issue(user, StatusCreated, now, jti))
  }

  /** The e-mail belongs to an account whose stored hash accepts the
      password. */
  predicate Credentials(db: Db, email: string, password: string) {
    exists u :: u in db.users && u.email == email && Bcrypt.CompareHashAndPassword(u.passwordHash, password)
  }

  /** POST /auth/login. Every authentication error, whatever its cause, is
      the same 401. */
  function Login(db: Db, body: Option<UserRepository.LoginRequest>, now: int, jti: Option<string>, fault: Fault)
    : (r: Response<AuthResponse>)
    ensures body.None? ==> r == Failure(StatusBadRequest, "Invalid request body")
    ensures body.Some? && (body.value.email == "" || body.value.password == "") ==>
              r == Failure(StatusBadRequest, "Email and password are required")
    ensures body.Some? && body.value.email != "" && body.value.password != ""
            && (fault.At(0) || !Credentials(db, body.value.email, body.value.password)) ==>
              r == Failure(StatusUnauthorized, "Invalid credentials")
    ensures r.Status() == StatusInternalServerError ==> jti.None? && r == Failure(StatusInternalServerError, "Error generating token")
    ensures r.Status() == StatusOK ==>
              body.Some? && !fault.At(0) && jti.Some? && r.Reply?
              && exists u :: u in db.users && u.email == body.value.email
                             && Bcrypt.CompareHashAndPassword(u.passwordHash, body.value.password)
                             && r.body.user == Profile(UserRepository.Public(u))
                             && r.body.token.claims.userId == u.id
  {
    match body
    case None => Failure(StatusBadRequest, "Invalid request body")
    case Some(req) =>
      if req.email == "" || req.password == "" then Failure(StatusBadRequest, "Email and password are required")
      else
        match UserRepository.AuthenticateUser(db, req, fault)
        case Err(_) => Failure(StatusUnauthorized, "Invalid credentials")
        case Ok(user) => Issue(user, StatusOK, now, jti)
  }

  /** GET /auth/profile for the user the middleware admitted. */
  function GetProfile(db: Db, userId: int, fault: Fault): (r: Response<UserRepository.UserResponse>)
    ensures fault.At(0) ==> r == Failure(StatusInternalServerError, "Failed to get profile")
    ensures !fault.At(0) && userId !in UserIds(db) ==> r == Failure(StatusNotFound, "User not found")
    ensures r.Status() == StatusOK <==> !fault.At(0) && userId in UserIds(db)
    ensures r.Status() == StatusOK ==>
              r.Reply? && exists u :: u in db.users && u.id == userId && r.body == UserRepository.Public(u)
  {
    FromLookup(UserRepository.GetUserByID(db, userId, fault), StatusOK, "Failed to get profile", "User not found")
  }

  /** What the middleware does with a request: reject it with a 401 and a
      message, or pass it on with the identity it places in the context. */
  datatype Decision = Rejected(message: string) | Admitted(userId: int, email: string)

  /** The token string the header carries, decoded. */
  function Presented(header: string, decode: string -> Option<Jwt.Token>): Option<Jwt.Token> {
    decode(Text.TrimPrefix(header, BearerPrefix))
  }

  /** AuthMiddleware. Call 0 is the lookup of the token's user. */
  function Middleware(db: Db, header: string, decode: string -> Option<Jwt.Token>, now: int, fault: Fault): (d: Decision)
    ensures header == "" ==> d == Rejected("Authorization header required")
    ensures header != "" && !Text.HasPrefix(header, BearerPrefix) ==> d == Rejected("Invalid authorization header format")
    ensures Text.HasPrefix(header, BearerPrefix)
            && (Presented(header, decode).None? || !Jwt.SignatureVerifies(Presented(header, decode).value, Jwt.Secret)
                || !Jwt.TimeValid(Presented(header, decode).value.claims, now)) ==>
              d == Rejected("Invalid token")
    ensures d.Admitted? <==>
              Text.HasPrefix(header, BearerPrefix) && Presented(header, decode).Some?
              && Jwt.SignatureVerifies(Presented(header, decode).value, Jwt.Secret)
              && Jwt.TimeValid(Presented(header, decode).value.claims, now)
              && !fault.At(0) && Presented(header, decode).value.claims.userId in UserIds(db)
    ensures Text.HasPrefix(header, BearerPrefix) && Presented(header, decode).Some?
            && Jwt.SignatureVerifies(Presented(header, decode).value, Jwt.Secret)
            && Jwt.TimeValid(Presented(header, decode).value.claims, now) ==>
              (fault.At(0) ==> d == Rejected("User verification failed"))
              && (!fault.At(0) && Presented(header, decode).value.claims.userId !in UserIds(db) ==> d == Rejected("User not found"))
    ensures d.Admitted? ==>
              d.userId == Presented(header, decode).value.claims.userId
              && d.email == Presented(header, decode).value.claims.email
  {
    if header == "" then Rejected("Authorization header required")
    else if !Text.HasPrefix(header, BearerPrefix) then Rejected("Invalid authorization header format")
    else
      match Jwt.Parse(Text.TrimPrefix(header, BearerPrefix), decode, Jwt.Secret, now)
      case None => Rejected("Invalid token")
      case Some(claims) =>
        match UserRepository.GetUserByID(db, claims.userId, fault)
        case Err(_) => Rejected("User verification failed")
        case Ok(None) => Rejected("User not found")
        case Ok(Some(_)) => Admitted(claims.userId, claims.email)
  }

  /** Under a well-formed store, Login answers 200 exactly for a registered
      e-mail with its password, when the lookup and token generation do
      not fail. */
  lemma LoginIff(db: Db, req: UserRepository.LoginRequest, now: int, jti: Option<string>, fault: Fault)
    requires Wf(db) && req.email != "" && req.password != ""
    ensures Login(db, Some(req), now, jti, fault).Status() == StatusOK <==>
              !fault.At(0) && jti.Some? && Credentials(db, req.email, req.password)
    ensures !fault.At(0) && jti.None? && Credentials(db, req.email, req.password) ==>
              Login(db, Some(req), now, jti, fault) == Failure(StatusInternalServerError, "Error generating token")
  {
    if !fault.At(0) && Credentials(db, req.email, req.password) {
      var u :| u in db.users && u.email == req.email && Bcrypt.CompareHashAndPassword(u.passwordHash, req.password);
      UserRepository.EmailLookupUnique(db, req.email, u);
      assert UserRepository.GetUserByEmail(db, req.email, fault) == UserRepository.GetUserByEmail(db, req.email, NoFault);
    }
  }

  /** A token from a successful login, presented as a Bearer token through a
      decoder that inverts its encoding, admits its user for the token's
      whole lifetime and no longer, as long as the account exists. */
  lemma LoginThenAdmitted(db: Db, req: UserRepository.LoginRequest, now: int, jti: Option<string>, fault: Fault,
                          tokenString: string, decode: string -> Option<Jwt.Token>, later: int, lookup: Fault)
    requires Login(db, Some(req), now, jti, fault).Status() == StatusOK
    requires decode(tokenString) == Some(Login(db, Some(req), now, jti, fault).body.token)
    requires !lookup.At(0)
    ensures var resp := Login(db, Some(req), now, jti, fault);
            Middleware(db, BearerPrefix + tokenString, decode, later, lookup).Admitted? <==> now <= later < now + Jwt.Lifetime
    ensures var resp := Login(db, Some(req), now, jti, fault);
            now <= later < now + Jwt.Lifetime ==>
              Middleware(db, BearerPrefix + tokenString, decode, later, lookup) == Admitted(resp.body.user.id, resp.body.user.email)
  {
    var resp := Login(db, Some(req), now, jti, fault);
    var token := resp.body.token;
    var u :| u in db.users && u.email == req.email
             && Bcrypt.CompareHashAndPassword(u.passwordHash, req.password)
             && resp.body.user == Profile(UserRepository.Public(u))
             && resp.body.token.claims.userId == u.id;
    assert u.id in UserIds(db);
    assert Jwt.SignatureVerifies(token, Jwt.Secret);
    assert token.claims.email == resp.body.user.email;
    assert Jwt.TimeValid(token.claims, later) <==> now <= later < now + Jwt.Lifetime;
    MiddlewareOnToken(db, tokenString, token, decode, later, lookup);
  }

  /** A Bearer header whose token decodes to a correctly signed token of an
      existing user is admitted exactly while the token is within its
      validity window, as that token's user. */
  lemma MiddlewareOnToken(db: Db, tokenString: string, token: Jwt.Token, decode: string -> Option<Jwt.Token>,
                          now: int, lookup: Fault)
    requires decode(tokenString) == Some(token)
    requires Jwt.SignatureVerifies(token, Jwt.Secret) && token.claims.userId in UserIds(db) && !lookup.At(0)
    ensures var d := Middleware(db, BearerPrefix + tokenString, decode, now, lookup);
            (d.Admitted? <==> Jwt.TimeValid(token.claims, now))
            && (d.Admitted? ==> d == Admitted(token.claims.userId, token.claims.email))
  {
    var header := BearerPrefix + tokenString;
    assert header[..|BearerPrefix|] == BearerPrefix;
    assert Text.TrimPrefix(header, BearerPrefix) == tokenString;
  }

  /** A newly registered account can log in at once with the password it
      registered, and the login reports the same user. */
  lemma RegisterThenLogin(db: Db, req: UserRepository.CreateUserRequest, salt: string, now: int, jti: Option<string>,
                          fault: Fault, later: int, jti2: Option<string>)
    requires Wf(db)
    requires Register(db, Some(req), salt, now, jti, fault).out.Status() == StatusCreated
    requires jti2.Some?
    ensures var t := Register(db, Some(req), salt, now, jti, fault);
            var login := Login(t.db, Some(UserRepository.LoginRequest(req.email, req.password)), later, jti2, NoFault);
            login.Status() == StatusOK && login.Reply? && t.out.Reply? && login.body.user == t.out.body.user
  {
    UserRepository.CreateThenAuthenticate(db, req, salt, fault);
  }
}
