/** BandRepository: bands with their members, every operation scoped to the
    band's owner.

    Calls to the database are numbered from 0 in source order and fail as
    the `Fault` says. A band that is missing and a band that belongs to
    someone else are indistinguishable to the caller: both give `None` (or
    no error, for the deletes) and leave the state alone. */
module BandRepository {
  import opened Wrappers
  import opened Seqs
  import opened Schema
  import Decimal

  /** A band together with its members, ordered by creation. */
  datatype BandWithMembers = BandWithMembers(band: Band, members: seq<Member>, memberCount: int)

  /** The member fields a client supplies (AddMemberRequest,
      UpdateMemberRequest, and the members of a CreateBandRequest). */
  datatype MemberRequest = MemberRequest(name: string, role: string, email: string, phone: string)

  datatype CreateBandRequest = CreateBandRequest(name: string, description: string, members: seq<MemberRequest>)

  datatype UpdateBandRequest = UpdateBandRequest(name: string, description: string)

  /** The driver's report of a band insert for a user id that has no row. */
  const BandOwnerMissing: string :=
    "pq: insert or update on table \"bands\" violates foreign key constraint \"bands_user_id_fkey\""

  function WithMembers(b: Band, members: seq<Member>): (r: BandWithMembers)
    ensures r.band == b && r.members == members && r.memberCount == |members|
  {
    BandWithMembers(b, members, |members|)
  }

  /** `x` carries its band's members as stored, and their count. */
  ghost predicate CarriesMembers(db: Db, x: BandWithMembers) {
    x.memberCount == |x.members|
    && forall m :: m in x.members <==> m in db.members && m.bandId == x.band.id
  }

  /** GetBandMembers (call 0: the SELECT ... ORDER BY created_at ASC). */
  function GetBandMembers(db: Db, bandId: int, fault: Fault): (r: Result<seq<Member>>)
    ensures fault.At(0) ==> r == Err(Error(Wrap("failed to get band members", fault.driverMsg)))
    ensures !fault.At(0) ==> r.Ok?
    ensures r.Ok? ==> forall m :: m in r.value <==> m in db.members && m.bandId == bandId
  {
    if fault.At(0) then Err(Error(Wrap("failed to get band members", fault.driverMsg)))
    else Ok(Filter(db.members, MemberOf(bandId)))
  }

  /** The error GetBandByID and GetBandsByUserID report when a band's
      member query fails. */
  function MembersError(bandId: int, inner: Error): Error {
    Error(Wrap("failed to get members for band " + Decimal.Itoa(bandId), inner.msg))
  }

  /** The member query of each band in turn, call i for `bands[i]`; the
      first failure ends the loop. */
  function AttachMembers(db: Db, bands: seq<Band>, fault: Fault): (r: Result<seq<BandWithMembers>>)
    ensures r.Ok? <==> fault.Clear(|bands|)
    ensures r.Ok? ==> |r.value| == |bands|
    ensures r.Ok? ==> forall i :: 0 <= i < |bands| ==>
              r.value[i].band == bands[i] && CarriesMembers(db, r.value[i])
    decreases |bands|
  {
    if bands == [] then Ok([])
    else
      match GetBandMembers(db, bands[0].id, fault)
      case Err(e) => Err(MembersError(bands[0].id, e))
      case Ok(ms) =>
        ClearShift(fault, 1, |bands| - 1);
        match AttachMembers(db, bands[1..], fault.Shift(1))
        case Err(e) => Err(e)
        case Ok(rest) => Ok([WithMembers(bands[0], ms)] + rest)
  }

  /** The user's bands in `ORDER BY created_at DESC` order. */
  function NewestFirst(db: Db, userId: int): (bs: seq<Band>)
    ensures |bs| == |Filter(db.bands, OwnedBy(userId))|
    ensures forall i :: 0 <= i < |bs| ==> bs[i] == Filter(db.bands, OwnedBy(userId))[|bs| - 1 - i]
  {
    Reverse(Filter(db.bands, OwnedBy(userId)))
  }

  /** GetBandsByUserID. Call 0 selects the user's bands newest first; calls
      1, 2, ... fetch the members of each band in that order. */
  function GetBandsByUserID(db: Db, userId: int, fault: Fault): (r: Result<seq<BandWithMembers>>)
    ensures fault.At(0) ==> r == Err(Error(Wrap("failed to get bands", fault.driverMsg)))
    ensures r.Ok? <==> fault.Clear(1 + |NewestFirst(db, userId)|)
    ensures r.Ok? ==> |r.value| == |NewestFirst(db, userId)|
    ensures r.Ok? ==> forall i :: 0 <= i < |r.value| ==>
              r.value[i].band == NewestFirst(db, userId)[i] && CarriesMembers(db, r.value[i])
  {
    if fault.At(0) then Err(Error(Wrap("failed to get bands", fault.driverMsg)))
    else
      var bands := NewestFirst(db, userId);
      ClearNext(fault, 0);
      ClearShift(fault, 1, |bands|);
      AttachMembers(db, bands, fault.Shift(1))
  }

  /** The ownership check that opens every member operation (call 0):
      whether `userId` owns `bandId`. */
  function VerifyOwnership(db: Db, bandId: int, userId: int, fault: Fault): (r: Result<bool>)
    ensures fault.At(0) ==> r == Err(Error(Wrap("failed to verify band ownership", fault.driverMsg)))
    ensures !fault.At(0) ==> r == Ok(bandId in OwnedBandIds(db, userId))
  {
    OwnsIff(db, userId, bandId);
    if fault.At(0) then Err(Error(Wrap("failed to verify band ownership", fault.driverMsg)))
    else Ok(Owns(db, userId, bandId))
  }

  /** GetBandByID. Calls: 0 the owned-band SELECT, 1 its members. */
  function GetBandByID(db: Db, bandId: int, userId: int, fault: Fault): (r: Result<Option<BandWithMembers>>)
    ensures fault.At(0) ==> r == Err(Error(Wrap("failed to get band", fault.driverMsg)))
    ensures !fault.At(0) && bandId !in OwnedBandIds(db, userId) ==> r == Ok(None)
    ensures r.Ok? && r.value.Some? <==> !fault.At(0) && !fault.At(1) && bandId in OwnedBandIds(db, userId)
    ensures r.Err? <==> fault.At(0) || (bandId in OwnedBandIds(db, userId) && fault.At(1))
    ensures r.Ok? && r.value.Some? ==>
              r.value.value.band in db.bands && r.value.value.band.id == bandId
              && r.value.value.band.userId == userId
              && r.value.value.memberCount == |r.value.value.members|
              && r.value.value.members == Filter(db.members, MemberOf(bandId))
  {
    OwnsIff(db, userId, bandId);
    if fault.At(0) then Err(Error(Wrap("failed to get band", fault.driverMsg)))
    else
      match First(db.bands, BandIs(bandId, userId))
      case None => Ok(None)
      case Some(b) =>
        match GetBandMembers(db, b.id, fault.Shift(1))
        case Err(e) => Err(MembersError(b.id, e))
        case Ok(ms) => Ok(Some(WithMembers(b, ms)))
  }

  /** The member row inserted for `req` with the given id and stamp. */
  function MemberRow(req: MemberRequest, bandId: int, id: int, created: int): Member {
    Member(id, bandId, req.name, req.role, req.email, req.phone, created)
  }

  /** The rows inserted, one after another, for `reqs`: consecutive ids and
      stamps from `firstId` and `firstStamp`, each carrying its request's
      fields. */
  function NewMembers(reqs: seq<MemberRequest>, bandId: int, firstId: int, firstStamp: int): (ms: seq<Member>)
    ensures |ms| == |reqs|
    ensures forall i :: 0 <= i < |reqs| ==>
              ms[i].id == firstId + i && ms[i].created == firstStamp + i && ms[i].bandId == bandId
              && ms[i].name == reqs[i].name && ms[i].role == reqs[i].role
              && ms[i].email == reqs[i].email && ms[i].phone == reqs[i].phone
  {
    seq(|reqs|, i requires 0 <= i < |reqs| => MemberRow(reqs[i], bandId, firstId + i, firstStamp + i))
  }

  lemma NewMembersCons(reqs: seq<MemberRequest>, bandId: int, firstId: int, firstStamp: int)
    requires reqs != []
    ensures NewMembers(reqs, bandId, firstId, firstStamp)
            == [MemberRow(reqs[0], bandId, firstId, firstStamp)] + NewMembers(reqs[1..], bandId, firstId + 1, firstStamp + 1)
  {
  }

  /** The member INSERTs of CreateBand inside the transaction `tx`, call i
      for `reqs[i]`; the first failure ends the loop with the driver's
      error, unwrapped. */
  function InsertMembers(tx: Db, bandId: int, reqs: seq<MemberRequest>, fault: Fault): (r: Result<Tx<seq<Member>>>)
    ensures r.Ok? <==> fault.Clear(|reqs|)
    ensures r.Err? ==> r.error == Error(fault.driverMsg)
    ensures r.Ok? ==> r.value.out == NewMembers(reqs, bandId, tx.nextMemberId, tx.clock)
    ensures r.Ok? ==> r.value.db == tx.(members := tx.members + r.value.out,
                                        nextMemberId := tx.nextMemberId + |reqs|,
                                        clock := tx.clock + |reqs|)
    decreases |reqs|
  {
    if reqs == [] then Ok(Tx(tx, []))
    else if fault.At(0) then Err(Error(fault.driverMsg))
    else
      var m := MemberRow(reqs[0], bandId, tx.nextMemberId, tx.clock);
      var tx' := tx.(members := tx.members + [m], nextMemberId := tx.nextMemberId + 1, clock := tx.clock + 1);
      ClearNext(fault, 0);
      ClearShift(fault, 1, |reqs| - 1);
      match InsertMembers(tx', bandId, reqs[1..], fault.Shift(1))
      case Err(e) => Err(e)
      case Ok(t) =>
        var ms := [m] + t.out;
        assert ms == NewMembers(reqs, bandId, tx.nextMemberId, tx.clock) by {
          NewMembersCons(reqs, bandId, tx.nextMemberId, tx.clock);
        }
        Ok(Tx(tx.(members := tx.members + ms, nextMemberId := tx.nextMemberId + |reqs|, clock := tx.clock + |reqs|), ms))
  }

  /** CreateBand, one transaction. Calls: 0 Begin, 1 the band INSERT,
      2 .. 1+n the n member INSERTs, 2+n Commit. Errors are returned as the
      driver reports them. */
  function CreateBand(db: Db, userId: int, req: CreateBandRequest, fault: Fault): (r: Tx<Result<BandWithMembers>>)
    ensures r.out.Err? ==> r.db == db
    ensures r.out.Ok? <==> fault.Clear(3 + |req.members|) && userId in UserIds(db)
    ensures fault.Clear(2) && userId !in UserIds(db) ==> r.out == Err(Error(BandOwnerMissing))
    ensures r.out.Ok? ==>
              var x := r.out.value;
              x.band == Band(db.nextBandId, req.name, req.description, userId, db.clock)
              && x.members == NewMembers(req.members, x.band.id, db.nextMemberId, db.clock + 1)
              && x.memberCount == |req.members|
              && r.db == db.(bands := db.bands + [x.band], members := db.members + x.members,
                             nextBandId := db.nextBandId + 1,
                             nextMemberId := db.nextMemberId + |req.members|,
                             clock := db.clock + 1 + |req.members|)
  {
    if fault.At(0) || fault.At(1) then Tx(db, Err(Error(fault.driverMsg)))
    else if userId !in UserIds(db) then Tx(db, Err(Error(BandOwnerMissing)))
    else
      var band := Band(db.nextBandId, req.name, req.description, userId, db.clock);
      var tx := db.(bands := db.bands + [band], nextBandId := db.nextBandId + 1, clock := db.clock + 1);
      var n := |req.members|;
      ClearNext(fault, 0);
      ClearNext(fault, 1);
      ClearShift(fault, 2, n);
      ClearNext(fault, 2 + n);
      match InsertMembers(tx, band.id, req.members, fault.Shift(2))
      case Err(e) => Tx(db, Err(e))
      case Ok(t) =>
        if fault.At(2 + n) then Tx(db, Err(Error(fault.driverMsg)))
        else Tx(t.db, Ok(WithMembers(band, t.out)))
  }

  /** The SET clause of UpdateBand, applied to the row matching (id, owner). */
  function RenameBand(bandId: int, userId: int, req: UpdateBandRequest): Band -> Band {
    (b: Band) => if b.id == bandId && b.userId == userId then b.(name := req.name, description := req.description) else b
  }

  /** UpdateBand (call 0: the UPDATE ... RETURNING). A band that is missing
      or owned by someone else gives `None`. */
  function UpdateBand(db: Db, bandId: int, userId: int, req: UpdateBandRequest, fault: Fault): (r: Tx<Result<Option<Band>>>)
    ensures !(r.out.Ok? && r.out.value.Some?) ==> r.db == db
    ensures fault.At(0) ==> r.out == Err(Error(Wrap("failed to update band", fault.driverMsg)))
    ensures !fault.At(0) && bandId !in OwnedBandIds(db, userId) ==> r == Tx(db, Ok(None))
    ensures r.out.Ok? && r.out.value.Some? <==> !fault.At(0) && bandId in OwnedBandIds(db, userId)
    ensures r.out.Ok? && r.out.value.Some? ==>
              var b := r.out.value.value;
              b.id == bandId && b.userId == userId && b.name == req.name && b.description == req.description
              && (exists o :: o in db.bands && o.id == bandId && o.userId == userId && b == o.(name := req.name, description := req.description))
              && r.db == db.(bands := r.db.bands)
              && |r.db.bands| == |db.bands|
              && forall i :: 0 <= i < |db.bands| ==>
                   if db.bands[i].id == bandId && db.bands[i].userId == userId
                   then r.db.bands[i] == db.bands[i].(name := req.name, description := req.description)
                   else r.db.bands[i] == db.bands[i]
  {
    OwnsIff(db, userId, bandId);
    if fault.At(0) then Tx(db, Err(Error(Wrap("failed to update band", fault.driverMsg))))
    else
      match First(db.bands, BandIs(bandId, userId))
      case None => Tx(db, Ok(None))
      case Some(found) =>
        var b := found.(name := req.name, description := req.description);
        var db' := db.(bands := Map(db.bands, RenameBand(bandId, userId, req)));
        Tx(db', Ok(Some(b)))
  }

  /** DeleteBand. Calls: 0 the DELETE, 1 RowsAffected. Deleting nothing is
      not an error; the cascade removes the band's members, playlists and
      their songs. */
  function DeleteBand(db: Db, bandId: int, userId: int, fault: Fault): (r: Tx<Outcome>)
    ensures fault.At(0) ==> r == Tx(db, Fail(Error(Wrap("failed to delete band", fault.driverMsg))))
    ensures !fault.At(0) ==> r.db == DeleteBands(db, BandIs(bandId, userId)) && bandId !in OwnedBandIds(r.db, userId)
    ensures !fault.At(0) && bandId !in OwnedBandIds(db, userId) ==> r.db == db
    ensures r.out == Pass <==> !fault.At(0) && !fault.At(1)
  {
    if fault.At(0) then Tx(db, Fail(Error(Wrap("failed to delete band", fault.driverMsg))))
    else
      var db' := DeleteBands(db, BandIs(bandId, userId));
      assert bandId !in OwnedBandIds(db, userId) ==> db' == db by {
        if bandId !in OwnedBandIds(db, userId) {
          DeleteNothing(db, BandIs(bandId, userId));
        }
      }
      if fault.At(1) then Tx(db', Fail(Error(Wrap("failed to get rows affected", fault.driverMsg))))
      else Tx(db', Pass)
  }

  /** AddBandMember. Calls: 0 the ownership check, 1 the INSERT. */
  function AddBandMember(db: Db, bandId: int, userId: int, req: MemberRequest, fault: Fault): (r: Tx<Result<Option<Member>>>)
    ensures !(r.out.Ok? && r.out.value.Some?) ==> r.db == db
    ensures fault.At(0) ==> r.out == Err(Error(Wrap("failed to verify band ownership", fault.driverMsg)))
    ensures !fault.At(0) && bandId !in OwnedBandIds(db, userId) ==> r == Tx(db, Ok(None))
    ensures r.out.Ok? && r.out.value.Some? <==> !fault.At(0) && !fault.At(1) && bandId in OwnedBandIds(db, userId)
    ensures r.out.Err? <==> fault.At(0) || (bandId in OwnedBandIds(db, userId) && fault.At(1))
    ensures r.out.Ok? && r.out.value.Some? ==>
              var m := r.out.value.value;
              m.id == db.nextMemberId && m.bandId == bandId && m.name == req.name && m.role == req.role
              && m.email == req.email && m.phone == req.phone && m.created == db.clock
              && r.db == db.(members := db.members + [m], nextMemberId := db.nextMemberId + 1, clock := db.clock + 1)
  {
    match VerifyOwnership(db, bandId, userId, fault)
    case Err(e) => Tx(db, Err(e))
    case Ok(false) => Tx(db, Ok(None))
    case Ok(true) =>
      if fault.At(1) then Tx(db, Err(Error(Wrap("failed to add band member", fault.driverMsg))))
      else
        var m := MemberRow(req, bandId, db.nextMemberId, db.clock);
        Tx(db.(members := db.members + [m], nextMemberId := db.nextMemberId + 1, clock := db.clock + 1), Ok(Some(m)))
  }

  /** The SET clause of UpdateBandMember, applied to the row matching
      (member id, band id). */
  function SetMember(memberId: int, bandId: int, req: MemberRequest): Member -> Member {
    (m: Member) =>
      if m.id == memberId && m.bandId == bandId then m.(name := req.name, role := req.role, email := req.email, phone := req.phone)
      else m
  }

  /** UpdateBandMember. Calls: 0 the ownership check, 1 the UPDATE ...
      RETURNING. A member of another band is not found. */
  function UpdateBandMember(db: Db, memberId: int, bandId: int, userId: int, req: MemberRequest, fault: Fault): (r: Tx<Result<Option<Member>>>)
    ensures !(r.out.Ok? && r.out.value.Some?) ==> r.db == db
    ensures fault.At(0) ==> r.out == Err(Error(Wrap("failed to verify band ownership", fault.driverMsg)))
    ensures !fault.At(0) && bandId !in OwnedBandIds(db, userId) ==> r == Tx(db, Ok(None))
    ensures r.out.Ok? && r.out.value.Some? <==>
              !fault.At(0) && !fault.At(1) && bandId in OwnedBandIds(db, userId)
              && exists m :: m in db.members && m.id == memberId && m.bandId == bandId
    ensures r.out.Err? <==> fault.At(0) || (bandId in OwnedBandIds(db, userId) && fault.At(1))
    ensures r.out.Ok? && r.out.value.Some? ==>
              var m := r.out.value.value;
              m.id == memberId && m.bandId == bandId && m.name == req.name && m.role == req.role
              && m.email == req.email && m.phone == req.phone
              && (exists o :: o in db.members && o.id == memberId && o.bandId == bandId && m == o.(name := req.name, role := req.role, email := req.email, phone := req.phone))
              && r.db == db.(members := r.db.members)
              && |r.db.members| == |db.members|
              && forall i :: 0 <= i < |db.members| ==>
                   if db.members[i].id == memberId && db.members[i].bandId == bandId
                   then r.db.members[i] == db.members[i].(name := req.name, role := req.role, email := req.email, phone := req.phone)
                   else r.db.members[i] == db.members[i]
  {
    match VerifyOwnership(db, bandId, userId, fault)
    case Err(e) => Tx(db, Err(e))
    case Ok(false) => Tx(db, Ok(None))
    case Ok(true) =>
      if fault.At(1) then Tx(db, Err(Error(Wrap("failed to update band member", fault.driverMsg))))
      else
        match First(db.members, MemberIs(memberId, bandId))
        case None => Tx(db, Ok(None))
        case Some(found) =>
          var m := found.(name := req.name, role := req.role, email := req.email, phone := req.phone);
          assert MemberIs(memberId, bandId)(found);
          Tx(db.(members := Map(db.members, SetMember(memberId, bandId, req))), Ok(Some(m)))
  }

  /** DeleteBandMember. Calls: 0 the ownership check, 1 the DELETE,
      2 RowsAffected. Deleting nothing is not an error. */
  function DeleteBandMember(db: Db, memberId: int, bandId: int, userId: int, fault: Fault): (r: Tx<Outcome>)
    ensures fault.At(0) ==> r == Tx(db, Fail(Error(Wrap("failed to verify band ownership", fault.driverMsg))))
    ensures !fault.At(0) && bandId !in OwnedBandIds(db, userId) ==> r == Tx(db, Pass)
    ensures fault.At(1) ==> r.db == db
    ensures bandId in OwnedBandIds(db, userId) && !fault.At(0) && fault.At(1) ==>
              r.out == Fail(Error(Wrap("failed to delete band member", fault.driverMsg)))
    ensures bandId in OwnedBandIds(db, userId) ==> (r.out == Pass <==> fault.Clear(3))
    ensures r.db != db ==> bandId in OwnedBandIds(db, userId)
    ensures r.db == db.(members := r.db.members)
    ensures !fault.At(0) && !fault.At(1) && bandId in OwnedBandIds(db, userId) ==>
              r.db.members == Filter(db.members, Not(MemberIs(memberId, bandId)))
              && (r.out == Pass <==> !fault.At(2))
  {
    match VerifyOwnership(db, bandId, userId, fault)
    case Err(e) => Tx(db, Fail(e))
    case Ok(false) => Tx(db, Pass)
    case Ok(true) =>
      if fault.At(1) then Tx(db, Fail(Error(Wrap("failed to delete band member", fault.driverMsg))))
      else
        var db' := db.(members := Filter(db.members, Not(MemberIs(memberId, bandId))));
        if fault.At(2) then Tx(db', Fail(Error(Wrap("failed to get rows affected", fault.driverMsg))))
        else Tx(db', Pass)
  }

  /** GetBandMemberByID. Calls: 0 the ownership check, 1 the SELECT. */
  function GetBandMemberByID(db: Db, memberId: int, bandId: int, userId: int, fault: Fault): (r: Result<Option<Member>>)
    ensures fault.At(0) ==> r == Err(Error(Wrap("failed to verify band ownership", fault.driverMsg)))
    ensures !fault.At(0) && bandId !in OwnedBandIds(db, userId) ==> r == Ok(None)
    ensures r.Ok? && r.value.Some? <==>
              !fault.At(0) && !fault.At(1) && bandId in OwnedBandIds(db, userId)
              && exists m :: m in db.members && m.id == memberId && m.bandId == bandId
    ensures r.Err? <==> fault.At(0) || (bandId in OwnedBandIds(db, userId) && fault.At(1))
    ensures bandId in OwnedBandIds(db, userId) && !fault.At(0) && fault.At(1) ==>
              r == Err(Error(Wrap("failed to get band member", fault.driverMsg)))
    ensures r == Ok(None) <==>
              !fault.At(0)
              && (bandId !in OwnedBandIds(db, userId)
                  || (!fault.At(1) && forall m :: m in db.members ==> !(m.id == memberId && m.bandId == bandId)))
    ensures r.Ok? && r.value.Some? ==>
              r.value.value in db.members && r.value.value.id == memberId && r.value.value.bandId == bandId
  {
    match VerifyOwnership(db, bandId, userId, fault)
    case Err(e) => Err(e)
    case Ok(false) => Ok(None)
    case Ok(true) =>
      if fault.At(1) then Err(Error(Wrap("failed to get band member", fault.driverMsg)))
      else
        var found := First(db.members, MemberIs(memberId, bandId));
        assert found.None? ==> forall m :: m in db.members ==> !(m.id == memberId && m.bandId == bandId) by {
          if found.None? {
            forall m | m in db.members ensures !(m.id == memberId && m.bandId == bandId) {
              assert !MemberIs(memberId, bandId)(m);
            }
          }
        }
        Ok(found)
  }

  // ---------------------------------------------------------------------
  // Properties

  /** A band's members come back in the order they were created. */
  lemma MembersInCreationOrder(db: Db, bandId: int)
    requires Wf(db)
    ensures Increasing(GetBandMembers(db, bandId, NoFault).value, MemberStamp)
  {
    FilterIncreasing(db.members, MemberOf(bandId), MemberStamp);
  }

  /** GetBandsByUserID returns exactly the bands the user owns, each once. */
  lemma BandsExactlyOwned(db: Db, userId: int)
    ensures GetBandsByUserID(db, userId, NoFault).Ok?
    ensures var r := GetBandsByUserID(db, userId, NoFault).value;
            forall b :: (exists x :: x in r && x.band == b) <==> b in db.bands && b.userId == userId
  {
    var owned := Filter(db.bands, OwnedBy(userId));
    var newest := NewestFirst(db, userId);
    var res := GetBandsByUserID(db, userId, NoFault);
    assert res.Ok? by { assert NoFault.Clear(1 + |newest|); }
    ReversedBands(res.value, newest, owned);
    assert forall b :: b in owned <==> b in db.bands && b.userId == userId;
  }

  /** Rows whose bands are `owned` read backwards carry exactly the bands
      of `owned`. */
  lemma ReversedBands(r: seq<BandWithMembers>, newest: seq<Band>, owned: seq<Band>)
    requires |r| == |newest| == |owned|
    requires forall i :: 0 <= i < |r| ==> r[i].band == newest[i]
    requires forall i :: 0 <= i < |newest| ==> newest[i] == owned[|newest| - 1 - i]
    ensures forall b :: (exists x :: x in r && x.band == b) <==> b in owned
  {
    forall b ensures (exists x :: x in r && x.band == b) <==> b in owned {
      if b in owned {
        var k :| 0 <= k < |owned| && owned[k] == b;
        var i := |r| - 1 - k;
        assert r[i].band == newest[i] == owned[k];
        assert r[i] in r;
      }
      if x :| x in r && x.band == b {
        var i :| 0 <= i < |r| && r[i] == x;
        assert b == newest[i] == owned[|r| - 1 - i];
      }
    }
  }

  /** A user's bands come back newest first. */
  lemma BandsNewestFirst(db: Db, userId: int)
    requires Wf(db)
    ensures GetBandsByUserID(db, userId, NoFault).Ok?
    ensures var r := GetBandsByUserID(db, userId, NoFault).value;
            forall i, j :: 0 <= i < j < |r| ==> r[i].band.created > r[j].band.created
  {
    var owned := Filter(db.bands, OwnedBy(userId));
    FilterIncreasing(db.bands, OwnedBy(userId), BandStamp);
    var r := GetBandsByUserID(db, userId, NoFault).value;
    forall i, j | 0 <= i < j < |r| ensures r[i].band.created > r[j].band.created {
      assert BandStamp(owned[|r| - 1 - j]) < BandStamp(owned[|r| - 1 - i]);
    }
  }

  /** Deleting a member leaves the band's other members in their order. */
  lemma DeleteMemberKeepsOrder(db: Db, memberId: int, bandId: int, userId: int)
    requires bandId in OwnedBandIds(db, userId)
    ensures var db' := DeleteBandMember(db, memberId, bandId, userId, NoFault).db;
            GetBandMembers(db', bandId, NoFault).value
            == Filter(GetBandMembers(db, bandId, NoFault).value, Not(MemberIs(memberId, bandId)))
  {
    FilterCommute(db.members, Not(MemberIs(memberId, bandId)), MemberOf(bandId));
  }

  /** A newly created band, with the members created with it, is what
      GetBandByID then returns to its owner. */
  lemma CreateThenGetBand(db: Db, userId: int, req: CreateBandRequest, fault: Fault)
    requires Wf(db)
    requires CreateBand(db, userId, req, fault).out.Ok?
    ensures var r := CreateBand(db, userId, req, fault);
            GetBandByID(r.db, r.out.value.band.id, userId, NoFault) == Ok(Some(r.out.value))
  {
    var r := CreateBand(db, userId, req, fault);
    var x := r.out.value;
    NextBandUnused(db);
    GetInsertedBand(r.db, db.bands, db.members, x, userId);
  }

  /** A band appended with its members to tables that hold neither it nor
      anything referring to it is found with exactly those members. */
  lemma GetInsertedBand(db: Db, bands: seq<Band>, members: seq<Member>, x: BandWithMembers, userId: int)
    requires db.bands == bands + [x.band] && db.members == members + x.members
    requires x.band.userId == userId && x.memberCount == |x.members|
    requires forall c :: c in bands ==> c.id != x.band.id
    requires forall m :: m in members ==> m.bandId != x.band.id
    requires forall m :: m in x.members ==> m.bandId == x.band.id
    ensures GetBandByID(db, x.band.id, userId, NoFault) == Ok(Some(x))
  {
    assert BandIs(x.band.id, userId)(x.band);
    assert First(db.bands, BandIs(x.band.id, userId)) == Some(x.band);
    NewBandMembers(members, x.members, x.band.id);
  }

  lemma NewBandMembers(members: seq<Member>, ms: seq<Member>, bandId: int)
    requires forall m :: m in members ==> m.bandId != bandId
    requires forall m :: m in ms ==> m.bandId == bandId
    ensures Filter(members + ms, MemberOf(bandId)) == ms
  {
    FilterAppend(members, ms, MemberOf(bandId));
    FilterDropsAll(members, MemberOf(bandId));
    FilterKeepsAll(ms, MemberOf(bandId));
  }

  /** A table grows by rows with consecutive fresh ids and rising stamps. */
  lemma MembersAppendWf(rows: seq<Member>, reqs: seq<MemberRequest>, bandId: int, nextId: int, clock: int, stamp: int)
    requires TableWf(rows, MemberKey, MemberStamp, nextId, clock)
    requires clock <= stamp
    ensures TableWf(rows + NewMembers(reqs, bandId, nextId, stamp), MemberKey, MemberStamp,
                    nextId + |reqs|, stamp + |reqs|)
  {
    var ms := NewMembers(reqs, bandId, nextId, stamp);
    var all := rows + ms;
    assert Increasing(all, MemberStamp) by {
      assert Increasing(ms, MemberStamp);
      AppendIncreasing(rows, ms, MemberStamp);
    }
    assert KeysBelow(all, MemberKey, nextId + |reqs|) && KeysBelow(all, MemberStamp, stamp + |reqs|) by {
      forall x | x in all ensures MemberKey(x) < nextId + |reqs| && MemberStamp(x) < stamp + |reqs| {
        if x in ms {
          var i :| 0 <= i < |ms| && ms[i] == x;
        }
      }
    }
    assert KeyUnique(all, MemberKey) by {
      forall x, y | x in all && y in all && MemberKey(x) == MemberKey(y) ensures x == y {
        if x in ms && y in ms {
          var i :| 0 <= i < |ms| && ms[i] == x;
          var j :| 0 <= j < |ms| && ms[j] == y;
          assert i == j;
        }
      }
    }
  }

  lemma CreateBandPreservesWf(db: Db, userId: int, req: CreateBandRequest, fault: Fault)
    requires Wf(db)
    ensures Wf(CreateBand(db, userId, req, fault).db)
  {
    var r := CreateBand(db, userId, req, fault);
    if r.out.Ok? {
      var x := r.out.value;
      NewBandWf(db, userId, req, x.band, x.members, r.db);
    }
  }

  /** The rows CreateBand commits keep the database well formed. */
  lemma NewBandWf(db: Db, userId: int, req: CreateBandRequest, band: Band, ms: seq<Member>, db': Db)
    requires Wf(db) && userId in UserIds(db)
    requires band == Band(db.nextBandId, req.name, req.description, userId, db.clock)
    requires ms == NewMembers(req.members, band.id, db.nextMemberId, db.clock + 1)
    requires db' == db.(bands := db.bands + [band], members := db.members + ms,
                        nextBandId := db.nextBandId + 1,
                        nextMemberId := db.nextMemberId + |req.members|,
                        clock := db.clock + 1 + |req.members|)
    ensures Wf(db')
  {
    assert BandIds(db') == BandIds(db) + {band.id};
    assert UsersWf(db') by {
      TableGrow(db.users, UserKey, UserStamp, db.nextUserId, db.clock, db.nextUserId, db'.clock);
    }
    assert BandsWf(db') by {
      TableAppend(db.bands, band, BandKey, BandStamp, db.nextBandId, db.clock, db'.clock);
      assert UserIds(db') == UserIds(db);
    }
    assert MembersWf(db') by {
      MembersAppendWf(db.members, req.members, band.id, db.nextMemberId, db.clock, db.clock + 1);
      forall m | m in db'.members ensures m.bandId in BandIds(db') {
        if m !in db.members {
          var i :| 0 <= i < |ms| && ms[i] == m;
        }
      }
    }
    assert PlaylistsWf(db') by {
      TableGrow(db.playlists, PlaylistKey, PlaylistStamp, db.nextPlaylistId, db.clock, db.nextPlaylistId, db'.clock);
    }
    assert SongsWf(db') by {
      TableGrow(db.songs, SongKey, SongStamp, db.nextSongId, db.clock, db.nextSongId, db'.clock);
      assert PlaylistIds(db') == PlaylistIds(db);
    }
  }

  lemma UpdateBandPreservesWf(db: Db, bandId: int, userId: int, req: UpdateBandRequest, fault: Fault)
    requires Wf(db)
    ensures Wf(UpdateBand(db, bandId, userId, req, fault).db)
  {
    BandsMapWf(db, RenameBand(bandId, userId, req));
  }

  lemma DeleteBandPreservesWf(db: Db, bandId: int, userId: int, fault: Fault)
    requires Wf(db)
    ensures Wf(DeleteBand(db, bandId, userId, fault).db)
  {
    DeleteBandsWf(db, BandIs(bandId, userId));
  }

  lemma AddBandMemberPreservesWf(db: Db, bandId: int, userId: int, req: MemberRequest, fault: Fault)
    requires Wf(db)
    ensures Wf(AddBandMember(db, bandId, userId, req, fault).db)
  {
    var r := AddBandMember(db, bandId, userId, req, fault);
    if r.out.Ok? && r.out.value.Some? {
      var db' := r.db;
      TableAppend(db.members, r.out.value.value, MemberKey, MemberStamp, db.nextMemberId, db.clock, db'.clock);
      TableGrow(db.users, UserKey, UserStamp, db.nextUserId, db.clock, db.nextUserId, db'.clock);
      TableGrow(db.bands, BandKey, BandStamp, db.nextBandId, db.clock, db.nextBandId, db'.clock);
      TableGrow(db.playlists, PlaylistKey, PlaylistStamp, db.nextPlaylistId, db.clock, db.nextPlaylistId, db'.clock);
      TableGrow(db.songs, SongKey, SongStamp, db.nextSongId, db.clock, db.nextSongId, db'.clock);
    }
  }

  lemma UpdateBandMemberPreservesWf(db: Db, memberId: int, bandId: int, userId: int, req: MemberRequest, fault: Fault)
    requires Wf(db)
    ensures Wf(UpdateBandMember(db, memberId, bandId, userId, req, fault).db)
  {
    MembersMapWf(db, SetMember(memberId, bandId, req));
  }

  lemma DeleteBandMemberPreservesWf(db: Db, memberId: int, bandId: int, userId: int, fault: Fault)
    requires Wf(db)
    ensures Wf(DeleteBandMember(db, memberId, bandId, userId, fault).db)
  {
    TableFilter(db.members, Not(MemberIs(memberId, bandId)), MemberKey, MemberStamp, db.nextMemberId, db.clock);
  }
}
