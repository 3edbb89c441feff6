/** UserRepository: accounts with bcrypt-hashed passwords and unique
    e-mail addresses.

    Every operation takes the driver's error channel as a `Fault`; its
    external calls are numbered in source order. A call that returns a row
    to the outside world returns a `UserResponse`, a type that has no
    password-hash field. */
module UserRepository {
  import opened Wrappers
  import opened Seqs
  import opened Schema
  import Bcrypt

  /** A user as returned to callers: every column except the hash. */
  datatype UserResponse = UserResponse(
    id: int, firstName: string, lastName: string, email: string, created: int)

  datatype CreateUserRequest = CreateUserRequest(
    firstName: string, lastName: string, email: string, password: string)

  datatype UpdateUserRequest = UpdateUserRequest(firstName: string, lastName: string, email: string)

  datatype LoginRequest = LoginRequest(email: string, password: string)

  const EmailExists: string := "email already exists"
  const InvalidCredentials: string := "invalid credentials"
  const UserNotFound: string := "user not found"

  /** The driver's report of a violated `users.email` unique constraint. */
  const EmailTaken: string := "pq: duplicate key value violates unique constraint \"users_email_key\""

  function Public(u: User): (r: UserResponse)
    ensures r.id == u.id && r.email == u.email && r.created == u.created
    ensures r.firstName == u.firstName && r.lastName == u.lastName
  {
    UserResponse(u.id, u.firstName, u.lastName, u.email, u.created)
  }

  /** GetUserByEmail (call 0: the SELECT). No row is `Ok(None)`, not an
      error. */
  function GetUserByEmail(db: Db, email: string, fault: Fault): (r: Result<Option<User>>)
    ensures fault.At(0) ==> r == Err(Error(Wrap("failed to get user by email", fault.driverMsg)))
    ensures !fault.At(0) ==> r.Ok?
    ensures r.Ok? && r.value.Some? ==> r.value.value in db.users && r.value.value.email == email
    ensures r.Ok? && r.value.None? ==> forall u :: u in db.users ==> u.email != email
  {
    if fault.At(0) then Err(Error(Wrap("failed to get user by email", fault.driverMsg)))
    else Ok(First(db.users, EmailIs(email)))
  }

  /** GetUserByID (call 0: the SELECT). */
  function GetUserByID(db: Db, userId: int, fault: Fault): (r: Result<Option<UserResponse>>)
    ensures fault.At(0) ==> r == Err(Error(Wrap("failed to get user", fault.driverMsg)))
    ensures !fault.At(0) ==> r.Ok? && (r.value.Some? <==> userId in UserIds(db))
    ensures r.Ok? && r.value.Some? ==> exists u :: u in db.users && u.id == userId && r.value.value == Public(u)
  {
    if fault.At(0) then Err(Error(Wrap("failed to get user", fault.driverMsg)))
    else
      match First(db.users, UserIs(userId))
      case None =>
        assert userId !in UserIds(db);
        Ok(None)
      case Some(u) => Ok(Some(Public(u)))
  }

  /** The row CreateUser inserts. */
  function NewUser(db: Db, req: CreateUserRequest, salt: string): User {
    User(db.nextUserId, req.firstName, req.lastName, req.email,
         Bcrypt.GenerateFromPassword(req.password, salt), db.clock)
  }

  /** CreateUser. Calls: 0 the e-mail lookup, 1 bcrypt, 2 the INSERT. */
  function CreateUser(db: Db, req: CreateUserRequest, salt: string, fault: Fault): (r: Tx<Result<UserResponse>>)
    ensures r.out.Err? ==> r.db == db
    ensures !fault.At(0) && (exists u :: u in db.users && u.email == req.email) ==>
              r.out == Err(Error(EmailExists))
    ensures r.out.Ok? <==>
              !fault.At(0) && !fault.At(1) && !fault.At(2)
              && forall u :: u in db.users ==> u.email != req.email
    ensures r.out.Ok? ==>
              r.db.users == db.users + [NewUser(db, req, salt)]
              && r.out.value == Public(NewUser(db, req, salt))
              && r.db == db.(users := r.db.users, nextUserId := db.nextUserId + 1, clock := db.clock + 1)
  {
    match GetUserByEmail(db, req.email, fault)
    case Err(e) => Tx(db, Err(Error(Wrap("failed to check existing user", e.msg))))
    case Ok(Some(_)) => Tx(db, Err(Error(EmailExists)))
    case Ok(None) =>
      if fault.At(1) then Tx(db, Err(Error(Wrap("failed to hash password", fault.driverMsg))))
      else if fault.At(2) then Tx(db, Err(Error(Wrap("failed to create user", fault.driverMsg))))
      else
        var u := NewUser(db, req, salt);
        Tx(db.(users := db.users + [u], nextUserId := db.nextUserId + 1, clock := db.clock + 1), Ok(Public(u)))
  }

  /** AuthenticateUser. Call 0 is the e-mail lookup; the bcrypt comparison
      cannot fail on a hash this model produced. An unknown e-mail and a
      wrong password give the same error. */
  function AuthenticateUser(db: Db, req: LoginRequest, fault: Fault): (r: Result<UserResponse>)
    ensures fault.At(0) ==> r.Err?
    ensures !fault.At(0) && r.Err? ==> r.error == Error(InvalidCredentials)
    ensures r.Ok? ==> exists u :: u in db.users && u.email == req.email
                        && Bcrypt.CompareHashAndPassword(u.passwordHash, req.password)
                        && r.value == Public(u)
  {
    match GetUserByEmail(db, req.email, fault)
    case Err(e) => Err(Error(Wrap("failed to get user", e.msg)))
    case Ok(None) => Err(Error(InvalidCredentials))
    case Ok(Some(u)) =>
      if Bcrypt.CompareHashAndPassword(u.passwordHash, req.password) then Ok(Public(u))
      else Err(Error(InvalidCredentials))
  }

  /** The SET clause of UpdateUser. COALESCE never applies: the driver sends
      Go strings, never NULL, so an empty field overwrites. */
  function SetProfile(userId: int, req: UpdateUserRequest): User -> User {
    (u: User) => if u.id == userId then u.(firstName := req.firstName, lastName := req.lastName, email := req.email) else u
  }

  /** Some user other than `userId` already has `email`. */
  predicate TakenByOther(db: Db, userId: int, email: string) {
    exists u :: u in db.users && u.id != userId && u.email == email
  }

  /** UpdateUser. Calls: 0 the existence check, then (only for a nonempty
      e-mail) 1 the e-mail lookup, then the UPDATE. The database's unique
      constraint rejects a duplicate that the application check lets
      through, which happens only for an empty e-mail. */
  function UpdateUser(db: Db, userId: int, req: UpdateUserRequest, fault: Fault): (r: Tx<Result<Option<UserResponse>>>)
    ensures !(r.out.Ok? && r.out.value.Some?) ==> r.db == db
    ensures !fault.At(0) && userId !in UserIds(db) ==> r.out == Ok(None)
    ensures TakenByOther(db, userId, req.email) ==> r.out.Err? || r.out == Ok(None)
    ensures r.out.Ok? && r.out.value.Some? <==>
              !fault.At(0) && userId in UserIds(db)
              && (req.email == "" || !fault.At(1)) && !fault.At(UpdateStep(req))
              && !TakenByOther(db, userId, req.email)
    ensures r.out.Ok? && r.out.value.Some? ==>
              r.db == db.(users := Map(db.users, SetProfile(userId, req)))
              && r.out.value.value.id == userId && r.out.value.value.email == req.email
              && r.out.value.value.firstName == req.firstName && r.out.value.value.lastName == req.lastName
  {
    match GetUserByID(db, userId, fault)
    case Err(e) => Tx(db, Err(e))
    case Ok(None) => Tx(db, Ok(None))
    case Ok(Some(found)) =>
      var checked: Result<()> :=
        if req.email == "" then Ok(())
        else
          match GetUserByEmail(db, req.email, fault.Shift(1))
          case Err(e) => Err(Error(Wrap("failed to check existing user", e.msg)))
          case Ok(Some(other)) =>
            if other.id != userId then Err(Error(EmailExists)) else Ok(())
          case Ok(None) => Ok(());
      if checked.Err? then Tx(db, Err(checked.error))
      else if fault.At(UpdateStep(req)) then Tx(db, Err(Error(Wrap("failed to update user", fault.driverMsg))))
      else if TakenByOther(db, userId, req.email) then Tx(db, Err(Error(Wrap("failed to update user", EmailTaken))))
      else
        var u := found.(firstName := req.firstName, lastName := req.lastName, email := req.email);
        Tx(db.(users := Map(db.users, SetProfile(userId, req))), Ok(Some(u)))
  }

  /** The number of UpdateUser's UPDATE call. */
  function UpdateStep(req: UpdateUserRequest): nat {
    if req.email == "" then 1 else 2
  }

  /** The SET clause of UpdatePassword. */
  function SetHash(userId: int, hash: Bcrypt.Hash): User -> User {
    (u: User) => if u.id == userId then u.(passwordHash := hash) else u
  }

  /** UpdatePassword. Calls: 0 bcrypt, 1 the UPDATE, 2 RowsAffected. A
      RowsAffected failure is reported after the UPDATE took effect. */
  function UpdatePassword(db: Db, userId: int, password: string, salt: string, fault: Fault): (r: Tx<Outcome>)
    ensures fault.At(0) || fault.At(1) ==> r.db == db && r.out.Fail?
    ensures !fault.At(0) && !fault.At(1) ==>
              r.db == db.(users := Map(db.users, SetHash(userId, Bcrypt.GenerateFromPassword(password, salt))))
    ensures !fault.At(0) && !fault.At(1) && fault.At(2) ==>
              r.out == Fail(Error(Wrap("failed to get rows affected", fault.driverMsg)))
    ensures !fault.At(0) && !fault.At(1) && !fault.At(2) ==>
              (r.out == Pass <==> userId in UserIds(db))
              && (r.out != Pass ==> r.out == Fail(Error(UserNotFound)))
  {
    if fault.At(0) then Tx(db, Fail(Error(Wrap("failed to hash password", fault.driverMsg))))
    else if fault.At(1) then Tx(db, Fail(Error(Wrap("failed to update password", fault.driverMsg))))
    else
      var rows := |Filter(db.users, UserIs(userId))|;
      var db' := db.(users := Map(db.users, SetHash(userId, Bcrypt.GenerateFromPassword(password, salt))));
      if fault.At(2) then Tx(db', Fail(Error(Wrap("failed to get rows affected", fault.driverMsg))))
      else if rows == 0 then
        Tx(db', Fail(Error(UserNotFound)))
      else
        assert Filter(db.users, UserIs(userId))[0] in Filter(db.users, UserIs(userId));
        Tx(db', Pass)
  }

  /** `DELETE FROM users WHERE id = $1`, cascading to the user's bands. */
  function RemoveUser(db: Db, userId: int): (r: Db)
    ensures forall u :: u in r.users <==> u in db.users && u.id != userId
  {
    DeleteBands(db, OwnedBy(userId)).(users := Filter(db.users, Not(UserIs(userId))))
  }

  /** DeleteUser. Calls: 0 the DELETE, 1 RowsAffected. */
  function DeleteUser(db: Db, userId: int, fault: Fault): (r: Tx<Outcome>)
    ensures fault.At(0) ==> r.db == db && r.out.Fail?
    ensures !fault.At(0) ==> r.db == RemoveUser(db, userId) && userId !in UserIds(r.db)
    ensures !fault.At(0) && fault.At(1) ==> r.out == Fail(Error(Wrap("failed to get rows affected", fault.driverMsg)))
    ensures !fault.At(0) && !fault.At(1) ==>
              (r.out == Pass <==> userId in UserIds(db))
              && (r.out != Pass ==> r.out == Fail(Error(UserNotFound)))
  {
    if fault.At(0) then Tx(db, Fail(Error(Wrap("failed to delete user", fault.driverMsg))))
    else
      var rows := |Filter(db.users, UserIs(userId))|;
      var db' := RemoveUser(db, userId);
      if fault.At(1) then Tx(db', Fail(Error(Wrap("failed to get rows affected", fault.driverMsg))))
      else if rows == 0 then Tx(db', Fail(Error(UserNotFound)))
      else
        assert Filter(db.users, UserIs(userId))[0] in Filter(db.users, UserIs(userId));
        Tx(db', Pass)
  }

  /** GetAllUsers: every user, newest first, without hashes. */
  function GetAllUsers(db: Db, fault: Fault): (r: Result<seq<UserResponse>>)
    ensures fault.At(0) <==> r.Err?
    ensures r.Ok? ==> |r.value| == |db.users|
    ensures r.Ok? ==> forall i :: 0 <= i < |db.users| ==> r.value[i] == Public(db.users[|db.users| - 1 - i])
  {
    if fault.At(0) then Err(Error(Wrap("failed to get users", fault.driverMsg)))
    else Ok(Reverse(Map(db.users, Public)))
  }

  /** GetUsersCount: `SELECT COUNT(*) FROM users`. */
  function GetUsersCount(db: Db, fault: Fault): (r: Result<int>)
    ensures fault.At(0) <==> r.Err?
    ensures r.Ok? ==> r.value == |db.users|
  {
    if fault.At(0) then Err(Error(Wrap("failed to get users count", fault.driverMsg)))
    else Ok(|db.users|)
  }

  // ---------------------------------------------------------------------
  // Properties

  /** In a well-formed database the count is the number of distinct user
      ids. */
  lemma UsersCountIsNumberOfUsers(db: Db)
    requires Wf(db)
    ensures GetUsersCount(db, NoFault) == Ok(|UserIds(db)|)
  {
    KeyCount(db.users, UserKey, UserStamp);
    assert Keys(db.users, UserKey) == UserIds(db);
  }

  /** With unique e-mails, at most one user answers to an address. */
  lemma EmailLookupUnique(db: Db, email: string, u: User)
    requires UsersWf(db) && u in db.users && u.email == email
    ensures GetUserByEmail(db, email, NoFault) == Ok(Some(u))
  {
    var r := First(db.users, EmailIs(email));
    assert EmailIs(email)(u);
    assert UserEmail(r.value) == UserEmail(u);
  }

  /** Login succeeds exactly for a registered e-mail with its password. */
  lemma AuthenticateIff(db: Db, req: LoginRequest)
    requires Wf(db)
    ensures AuthenticateUser(db, req, NoFault).Ok? <==>
              exists u :: u in db.users && u.email == req.email
                          && Bcrypt.CompareHashAndPassword(u.passwordHash, req.password)
  {
    if u :| u in db.users && u.email == req.email && Bcrypt.CompareHashAndPassword(u.passwordHash, req.password) {
      EmailLookupUnique(db, req.email, u);
    }
  }

  lemma CreateUserPreservesWf(db: Db, req: CreateUserRequest, salt: string, fault: Fault)
    requires Wf(db)
    ensures Wf(CreateUser(db, req, salt, fault).db)
  {
    var r := CreateUser(db, req, salt, fault);
    if r.out.Ok? {
      var u := NewUser(db, req, salt);
      TableAppend(db.users, u, UserKey, UserStamp, db.nextUserId, db.clock, db.clock + 1);
      var db' := r.db;
      assert KeyUnique(db'.users, UserEmail) by {
        forall x, y | x in db'.users && y in db'.users && UserEmail(x) == UserEmail(y) ensures x == y {
          if x != u && y != u {
            assert x in db.users && y in db.users;
          }
        }
      }
      assert UserIds(db) <= UserIds(db');
      TableGrow(db.bands, BandKey, BandStamp, db.nextBandId, db.clock, db.nextBandId, db'.clock);
      TableGrow(db.members, MemberKey, MemberStamp, db.nextMemberId, db.clock, db.nextMemberId, db'.clock);
      TableGrow(db.playlists, PlaylistKey, PlaylistStamp, db.nextPlaylistId, db.clock, db.nextPlaylistId, db'.clock);
      TableGrow(db.songs, SongKey, SongStamp, db.nextSongId, db.clock, db.nextSongId, db'.clock);
    }
  }

  /** A new account can log in with the password it was created with. */
  lemma CreateThenAuthenticate(db: Db, req: CreateUserRequest, salt: string, fault: Fault)
    requires Wf(db)
    requires CreateUser(db, req, salt, fault).out.Ok?
    ensures AuthenticateUser(CreateUser(db, req, salt, fault).db, LoginRequest(req.email, req.password), NoFault)
            == CreateUser(db, req, salt, fault).out
  {
    var r := CreateUser(db, req, salt, fault);
    CreateUserPreservesWf(db, req, salt, fault);
    EmailLookupUnique(r.db, req.email, NewUser(db, req, salt));
    Bcrypt.CompareGenerated(req.password, salt, req.password);
  }

  lemma UpdateUserPreservesWf(db: Db, userId: int, req: UpdateUserRequest, fault: Fault)
    requires Wf(db)
    ensures Wf(UpdateUser(db, userId, req, fault).db)
  {
    var r := UpdateUser(db, userId, req, fault);
    if r.out.Ok? && r.out.value.Some? {
      SetProfileKeepsUsersWf(db, userId, req);
    }
  }

  /** A profile change that takes no other account's e-mail keeps ids,
      e-mails and stamps unique and in order. */
  lemma SetProfileKeepsUsersWf(db: Db, userId: int, req: UpdateUserRequest)
    requires UsersWf(db) && !TakenByOther(db, userId, req.email)
    ensures UsersWf(db.(users := Map(db.users, SetProfile(userId, req))))
    ensures UserIds(db.(users := Map(db.users, SetProfile(userId, req)))) == UserIds(db)
  {
    var f := SetProfile(userId, req);
    var db' := db.(users := Map(db.users, f));
    assert TableWf(db'.users, UserKey, UserStamp, db.nextUserId, db.clock) by {
      TableMap(db.users, f, UserKey, UserStamp, db.nextUserId, db.clock);
    }
    assert KeyUnique(db'.users, UserEmail) by {
      SetProfileEmailsUnique(db.users, userId, req);
    }
    assert UserIds(db') == UserIds(db) by {
      MapMembers(db.users, f);
      forall id | id in UserIds(db) ensures id in UserIds(db') {
        var x :| x in db.users && x.id == id;
        assert f(x) in db'.users;
      }
    }
  }

  /** Giving account `userId` an e-mail no other account holds keeps
      e-mails unique. */
  lemma SetProfileEmailsUnique(users: seq<User>, userId: int, req: UpdateUserRequest)
    requires KeyUnique(users, UserKey) && KeyUnique(users, UserEmail)
    requires forall u :: u in users && u.id != userId ==> u.email != req.email
    ensures KeyUnique(Map(users, SetProfile(userId, req)), UserEmail)
  {
    var f := SetProfile(userId, req);
    MapMembers(users, f);
    forall x', y' | x' in Map(users, f) && y' in Map(users, f) && UserEmail(x') == UserEmail(y') ensures x' == y' {
      var x :| x in users && x' == f(x);
      var y :| y in users && y' == f(y);
      if x.id == userId && y.id == userId {
        assert UserKey(x) == UserKey(y);
      }
    }
  }

  /** A rewrite of user rows that keeps each row's id, e-mail and creation
      stamp keeps the users table well formed. */
  lemma UsersMapWf(db: Db, f: User -> User)
    requires UsersWf(db)
    requires forall x :: x in db.users ==> f(x).id == x.id && f(x).email == x.email && f(x).created == x.created
    ensures UsersWf(db.(users := Map(db.users, f)))
  {
    TableMap(db.users, f, UserKey, UserStamp, db.nextUserId, db.clock);
    MapKeyUnique(db.users, f, UserEmail);
  }

  /** After a successful password change the new password logs in and any
      other password, the old one included, does not. */
  lemma UpdatePasswordThenAuthenticate(db: Db, userId: int, password: string, salt: string, attempt: string, u: User)
    requires Wf(db) && u in db.users && u.id == userId
    ensures AuthenticateUser(UpdatePassword(db, userId, password, salt, NoFault).db, LoginRequest(u.email, attempt), NoFault).Ok?
            <==> attempt == password
  {
    var h := Bcrypt.GenerateFromPassword(password, salt);
    var f := SetHash(userId, h);
    var db' := db.(users := Map(db.users, f));
    assert UpdatePassword(db, userId, password, salt, NoFault).db == db';
    UsersMapWf(db, f);
    MapMembers(db.users, f);
    assert f(u) in db'.users && f(u).passwordHash == h;
    EmailLookupUnique(db', u.email, f(u));
    Bcrypt.CompareGenerated(password, salt, attempt);
  }

  /** A nonempty e-mail that another account holds is refused with "email
      already exists", while an account may keep its own e-mail. */
  lemma UpdateUserEmailRules(db: Db, userId: int, req: UpdateUserRequest)
    requires Wf(db) && userId in UserIds(db) && req.email != ""
    ensures TakenByOther(db, userId, req.email) ==>
              UpdateUser(db, userId, req, NoFault) == Tx(db, Err(Error(EmailExists)))
    ensures (exists u :: u in db.users && u.id == userId && u.email == req.email) ==>
              UpdateUser(db, userId, req, NoFault).out.Ok?
  {
    if o :| o in db.users && o.id != userId && o.email == req.email {
      EmailLookupUnique(db, req.email, o);
    }
    if u :| u in db.users && u.id == userId && u.email == req.email {
      EmailLookupUnique(db, req.email, u);
      assert !TakenByOther(db, userId, req.email) by {
        forall o | o in db.users && o.email == req.email ensures o.id == userId {
          assert UserEmail(o) == UserEmail(u);
        }
      }
    }
  }

  lemma UpdatePasswordPreservesWf(db: Db, userId: int, password: string, salt: string, fault: Fault)
    requires Wf(db)
    ensures Wf(UpdatePassword(db, userId, password, salt, fault).db)
  {
    var f := SetHash(userId, Bcrypt.GenerateFromPassword(password, salt));
    UsersMapWf(db, f);
    MapMembers(db.users, f);
    var db' := db.(users := Map(db.users, f));
    assert UserIds(db') == UserIds(db) by {
      forall id | id in UserIds(db) ensures id in UserIds(db') {
        var x :| x in db.users && x.id == id;
        assert f(x) in db'.users;
      }
    }
  }

  lemma DeleteUserPreservesWf(db: Db, userId: int, fault: Fault)
    requires Wf(db)
    ensures Wf(DeleteUser(db, userId, fault).db)
  {
    if !fault.At(0) {
      var cascaded := DeleteBands(db, OwnedBy(userId));
      DeleteBandsWf(db, OwnedBy(userId));
      var db' := RemoveUser(db, userId);
      TableFilter(db.users, Not(UserIs(userId)), UserKey, UserStamp, db.nextUserId, db.clock);
      forall b | b in db'.bands ensures b.userId in UserIds(db') {
        var u :| u in db.users && u.id == b.userId;
        assert u in db'.users;
      }
    }
  }
}
