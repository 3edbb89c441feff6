/** The database-backed band and member endpoints.

    Each handler parses its path ids with `strconv.Atoi`, decodes and
    validates its body, calls the band repository once, and maps the result
    to a status. The acting user's id comes from the authentication
    middleware. A body that does not decode is `None`. */
module BandHandler {
  import opened Wrappers
  import opened Seqs
  import opened Schema
  import opened Http
  import Decimal
  import BandRepository

  /** GET /bands */
  function GetBands(db: Db, userId: int, fault: Fault): (r: Response<seq<BandRepository.BandWithMembers>>)
    ensures r.Status() == StatusOK <==> fault.Clear(1 + |BandRepository.NewestFirst(db, userId)|)
    ensures r.Status() == StatusOK ==>
              r.Reply? && |r.body| == |BandRepository.NewestFirst(db, userId)|
              && forall i :: 0 <= i < |r.body| ==>
                   r.body[i].band == BandRepository.NewestFirst(db, userId)[i] && BandRepository.CarriesMembers(db, r.body[i])
    ensures r.Status() != StatusOK ==> r == Failure(StatusInternalServerError, "Failed to get bands")
  {
    FromList(BandRepository.GetBandsByUserID(db, userId, fault), "Failed to get bands")
  }

  /** POST /bands. The name is required; the members are optional. */
  function CreateBand(db: Db, userId: int, body: Option<BandRepository.CreateBandRequest>, fault: Fault)
    : (r: Tx<Response<BandRepository.BandWithMembers>>)
    ensures body.None? ==> r == Tx(db, Failure(StatusBadRequest, "Invalid request body"))
    ensures body.Some? && body.value.name == "" ==> r == Tx(db, Failure(StatusBadRequest, "Band name is required"))
    ensures r.out.Status() == StatusCreated <==>
              body.Some? && body.value.name != "" && fault.Clear(3 + |body.value.members|) && userId in UserIds(db)
    ensures r.out.Status() != StatusCreated ==> r.db == db
    ensures body.Some? && body.value.name != "" && r.out.Status() != StatusCreated ==>
              r.out == Failure(StatusInternalServerError, "Failed to create band")
    ensures r.out.Status() == StatusCreated ==>
              r.out.Reply? && var x := r.out.body;
              x.band == Band(db.nextBandId, body.value.name, body.value.description, userId, db.clock)
              && x.memberCount == |body.value.members|
              && x.members == BandRepository.NewMembers(body.value.members, x.band.id, db.nextMemberId, db.clock + 1)
              && r.db == db.(bands := db.bands + [x.band], members := db.members + x.members,
                             nextBandId := db.nextBandId + 1,
                             nextMemberId := db.nextMemberId + |x.members|,
                             clock := db.clock + 1 + |x.members|)
  {
    match body
    case None => Tx(db, Failure(StatusBadRequest, "Invalid request body"))
    case Some(req) =>
      if req.name == "" then Tx(db, Failure(StatusBadRequest, "Band name is required"))
      else
        var t := BandRepository.CreateBand(db, userId, req, fault);
        match t.out
        case Err(_) => Tx(t.db, Failure(StatusInternalServerError, "Failed to create band"))
        case Ok(b) => Tx(t.db, Reply(StatusCreated, b))
  }

  /** GET /bands/{id}. Another user's band is indistinguishable from a
      missing one. */
  function GetBand(db: Db, userId: int, idParam: string, fault: Fault): (r: Response<BandRepository.BandWithMembers>)
    ensures Decimal.Atoi(idParam).None? ==> r == Failure(StatusBadRequest, "Invalid ID format")
    ensures r.Status() == StatusOK <==>
              Decimal.Atoi(idParam).Some? && fault.Clear(2) && Decimal.Atoi(idParam).value in OwnedBandIds(db, userId)
    ensures Decimal.Atoi(idParam).Some? && !fault.At(0) && Decimal.Atoi(idParam).value !in OwnedBandIds(db, userId) ==>
              r == Failure(StatusNotFound, "Band not found")
    ensures Decimal.Atoi(idParam).Some?
            && (fault.At(0) || (Decimal.Atoi(idParam).value in OwnedBandIds(db, userId) && fault.At(1))) ==>
              r == Failure(StatusInternalServerError, "Failed to get band")
    ensures r.Status() == StatusOK ==>
              r.Reply? && r.body.band in db.bands && r.body.band.userId == userId && r.body.band.id == Decimal.Atoi(idParam).value
              && r.body.members == Filter(db.members, MemberOf(r.body.band.id)) && r.body.memberCount == |r.body.members|
  {
    match Decimal.Atoi(idParam)
    case None => Failure(StatusBadRequest, "Invalid ID format")
    case Some(id) =>
      ClearNext(fault, 0);
      ClearNext(fault, 1);
      FromLookup(BandRepository.GetBandByID(db, id, userId, fault), StatusOK, "Failed to get band", "Band not found")
  }

  /** PUT /bands/{id} */
  function UpdateBand(db: Db, userId: int, idParam: string, body: Option<BandRepository.UpdateBandRequest>, fault: Fault)
    : (r: Tx<Response<Band>>)
    ensures Decimal.Atoi(idParam).None? ==> r == Tx(db, Failure(StatusBadRequest, "Invalid ID format"))
    ensures Decimal.Atoi(idParam).Some? && body.None? ==> r == Tx(db, Failure(StatusBadRequest, "Invalid request body"))
    ensures Decimal.Atoi(idParam).Some? && body.Some? && body.value.name == "" ==>
              r == Tx(db, Failure(StatusBadRequest, "Band name is required"))
    ensures r.out.Status() == StatusOK <==>
              Decimal.Atoi(idParam).Some? && body.Some? && body.value.name != "" && !fault.At(0)
              && Decimal.Atoi(idParam).value in OwnedBandIds(db, userId)
    ensures r.out.Status() != StatusOK ==> r.db == db
    ensures Decimal.Atoi(idParam).Some? && body.Some? && body.value.name != "" && fault.At(0) ==>
              r == Tx(db, Failure(StatusInternalServerError, "Failed to update band"))
    ensures Decimal.Atoi(idParam).Some? && body.Some? && body.value.name != "" && !fault.At(0)
            && Decimal.Atoi(idParam).value !in OwnedBandIds(db, userId) ==>
              r == Tx(db, Failure(StatusNotFound, "Band not found"))
    ensures r.out.Status() == StatusOK ==>
              r.out.Reply? && r.out.body.id == Decimal.Atoi(idParam).value && r.out.body.userId == userId
              && r.out.body.name == body.value.name && r.out.body.description == body.value.description
  {
    match Decimal.Atoi(idParam)
    case None => Tx(db, Failure(StatusBadRequest, "Invalid ID format"))
    case Some(id) =>
      match body
      case None => Tx(db, Failure(StatusBadRequest, "Invalid request body"))
      case Some(req) =>
        if req.name == "" then Tx(db, Failure(StatusBadRequest, "Band name is required"))
        else
          var t := BandRepository.UpdateBand(db, id, userId, req, fault);
          Tx(t.db, FromLookup(t.out, StatusOK, "Failed to update band", "Band not found"))
  }

  /** DELETE /bands/{id}: 204 whenever the repository reports no error, even
      if no band was removed. */
  function DeleteBand(db: Db, userId: int, idParam: string, fault: Fault): (r: Tx<Response<()>>)
    ensures Decimal.Atoi(idParam).None? ==> r == Tx(db, Failure(StatusBadRequest, "Invalid ID format"))
    ensures r.out.Status() == StatusNoContent <==> Decimal.Atoi(idParam).Some? && !fault.At(0) && !fault.At(1)
    ensures r.out.Status() == StatusNoContent ==> r.db == DeleteBands(db, BandIs(Decimal.Atoi(idParam).value, userId))
    ensures Decimal.Atoi(idParam).Some? && r.out.Status() != StatusNoContent ==>
              r.out == Failure(StatusInternalServerError, "Failed to delete band")
    ensures Decimal.Atoi(idParam).Some? && fault.At(0) ==> r.db == db
  {
    match Decimal.Atoi(idParam)
    case None => Tx(db, Failure(StatusBadRequest, "Invalid ID format"))
    case Some(id) =>
      var t := BandRepository.DeleteBand(db, id, userId, fault);
      Tx(t.db, FromOutcome(t.out, "Failed to delete band"))
  }

  /** GET /bands/{bandId}/members, through GetBandByID. */
  function GetBandMembers(db: Db, userId: int, bandIdParam: string, fault: Fault): (r: Response<seq<Member>>)
    ensures Decimal.Atoi(bandIdParam).None? ==> r == Failure(StatusBadRequest, "Invalid band ID format")
    ensures r.Status() == StatusOK <==>
              Decimal.Atoi(bandIdParam).Some? && fault.Clear(2) && Decimal.Atoi(bandIdParam).value in OwnedBandIds(db, userId)
    ensures Decimal.Atoi(bandIdParam).Some? && !fault.At(0) && Decimal.Atoi(bandIdParam).value !in OwnedBandIds(db, userId) ==>
              r == Failure(StatusNotFound, "Band not found")
    ensures Decimal.Atoi(bandIdParam).Some?
            && (fault.At(0) || (Decimal.Atoi(bandIdParam).value in OwnedBandIds(db, userId) && fault.At(1))) ==>
              r == Failure(StatusInternalServerError, "Failed to verify band ownership")
    ensures r.Status() == StatusOK ==>
              r.Reply? && r.body == Filter(db.members, MemberOf(Decimal.Atoi(bandIdParam).value))
              && forall m :: m in r.body <==> m in db.members && m.bandId == Decimal.Atoi(bandIdParam).value
  {
    match Decimal.Atoi(bandIdParam)
    case None => Failure(StatusBadRequest, "Invalid band ID format")
    case Some(bandId) =>
      ClearNext(fault, 0);
      ClearNext(fault, 1);
      match BandRepository.GetBandByID(db, bandId, userId, fault)
      case Err(_) => Failure(StatusInternalServerError, "Failed to verify band ownership")
      case Ok(None) => Failure(StatusNotFound, "Band not found")
      case Ok(Some(b)) => Reply(StatusOK, b.members)
  }

  /** Name and role must be present in a member body. */
  predicate MemberValid(req: BandRepository.MemberRequest) {
    req.name != "" && req.role != ""
  }

  /** POST /bands/{bandId}/members */
  function AddBandMember(db: Db, userId: int, bandIdParam: string, body: Option<BandRepository.MemberRequest>, fault: Fault)
    : (r: Tx<Response<Member>>)
    ensures Decimal.Atoi(bandIdParam).None? ==> r == Tx(db, Failure(StatusBadRequest, "Invalid band ID format"))
    ensures Decimal.Atoi(bandIdParam).Some? && body.None? ==> r == Tx(db, Failure(StatusBadRequest, "Invalid request body"))
    ensures Decimal.Atoi(bandIdParam).Some? && body.Some? && !MemberValid(body.value) ==>
              r == Tx(db, Failure(StatusBadRequest, "Name and role are required"))
    ensures r.out.Status() == StatusCreated <==>
              Decimal.Atoi(bandIdParam).Some? && body.Some? && MemberValid(body.value) && fault.Clear(2)
              && Decimal.Atoi(bandIdParam).value in OwnedBandIds(db, userId)
    ensures r.out.Status() != StatusCreated ==> r.db == db
    ensures Decimal.Atoi(bandIdParam).Some? && body.Some? && MemberValid(body.value)
            && (fault.At(0) || (Decimal.Atoi(bandIdParam).value in OwnedBandIds(db, userId) && fault.At(1))) ==>
              r == Tx(db, Failure(StatusInternalServerError, "Failed to add band member"))
    ensures Decimal.Atoi(bandIdParam).Some? && body.Some? && MemberValid(body.value)
            && !fault.At(0) && Decimal.Atoi(bandIdParam).value !in OwnedBandIds(db, userId) ==>
              r == Tx(db, Failure(StatusNotFound, "Band not found"))
    ensures r.out.Status() == StatusCreated ==>
              r.out.Reply? && var m := r.out.body;
              m.id == db.nextMemberId && m.bandId == Decimal.Atoi(bandIdParam).value
              && m.name == body.value.name && m.role == body.value.role
              && r.db == db.(members := db.members + [m], nextMemberId := db.nextMemberId + 1, clock := db.clock + 1)
  {
    match Decimal.Atoi(bandIdParam)
    case None => Tx(db, Failure(StatusBadRequest, "Invalid band ID format"))
    case Some(bandId) =>
      match body
      case None => Tx(db, Failure(StatusBadRequest, "Invalid request body"))
      case Some(req) =>
        if !MemberValid(req) then Tx(db, Failure(StatusBadRequest, "Name and role are required"))
        else
          ClearNext(fault, 0);
          ClearNext(fault, 1);
          var t := BandRepository.AddBandMember(db, bandId, userId, req, fault);
          Tx(t.db, FromLookup(t.out, StatusCreated, "Failed to add band member", "Band not found"))
  }

  /** PUT /bands/{bandId}/members/{memberId} */
  function UpdateBandMember(db: Db, userId: int, bandIdParam: string, memberIdParam: string,
                            body: Option<BandRepository.MemberRequest>, fault: Fault): (r: Tx<Response<Member>>)
    ensures Decimal.Atoi(bandIdParam).None? ==> r == Tx(db, Failure(StatusBadRequest, "Invalid band ID format"))
    ensures Decimal.Atoi(bandIdParam).Some? && Decimal.Atoi(memberIdParam).None? ==>
              r == Tx(db, Failure(StatusBadRequest, "Invalid member ID format"))
    ensures Decimal.Atoi(bandIdParam).Some? && Decimal.Atoi(memberIdParam).Some? && body.None? ==>
              r == Tx(db, Failure(StatusBadRequest, "Invalid request body"))
    ensures Decimal.Atoi(bandIdParam).Some? && Decimal.Atoi(memberIdParam).Some? && body.Some? && !MemberValid(body.value) ==>
              r == Tx(db, Failure(StatusBadRequest, "Name and role are required"))
    ensures r.out.Status() == StatusOK <==>
              Decimal.Atoi(bandIdParam).Some? && Decimal.Atoi(memberIdParam).Some? && body.Some? && MemberValid(body.value)
              && fault.Clear(2) && Decimal.Atoi(bandIdParam).value in OwnedBandIds(db, userId)
              && exists m :: m in db.members && m.id == Decimal.Atoi(memberIdParam).value && m.bandId == Decimal.Atoi(bandIdParam).value
    ensures r.out.Status() == StatusOK ==>
              r.out.Reply? && r.out.body.id == Decimal.Atoi(memberIdParam).value && r.out.body.bandId == Decimal.Atoi(bandIdParam).value
              && r.out.body.name == body.value.name && r.out.body.role == body.value.role
              && r.out.body in r.db.members
    ensures r.out.Status() != StatusOK ==> r.db == db
    ensures Decimal.Atoi(bandIdParam).Some? && Decimal.Atoi(memberIdParam).Some? && body.Some? && MemberValid(body.value)
            && (fault.At(0) || (Decimal.Atoi(bandIdParam).value in OwnedBandIds(db, userId) && fault.At(1))) ==>
              r == Tx(db, Failure(StatusInternalServerError, "Failed to update band member"))
    ensures Decimal.Atoi(bandIdParam).Some? && Decimal.Atoi(memberIdParam).Some? && body.Some? && MemberValid(body.value)
            && !fault.At(0) && Decimal.Atoi(bandIdParam).value !in OwnedBandIds(db, userId) ==>
              r == Tx(db, Failure(StatusNotFound, "Band member not found"))
    ensures Decimal.Atoi(bandIdParam).Some? && Decimal.Atoi(memberIdParam).Some? && body.Some? && MemberValid(body.value)
            && fault.Clear(2) && Decimal.Atoi(bandIdParam).value in OwnedBandIds(db, userId)
            && (forall m :: m in db.members ==> !(m.id == Decimal.Atoi(memberIdParam).value && m.bandId == Decimal.Atoi(bandIdParam).value)) ==>
              r == Tx(db, Failure(StatusNotFound, "Band member not found"))
  {
    match Decimal.Atoi(bandIdParam)
    case None => Tx(db, Failure(StatusBadRequest, "Invalid band ID format"))
    case Some(bandId) =>
      match Decimal.Atoi(memberIdParam)
      case None => Tx(db, Failure(StatusBadRequest, "Invalid member ID format"))
      case Some(memberId) =>
        match body
        case None => Tx(db, Failure(StatusBadRequest, "Invalid request body"))
        case Some(req) =>
          if !MemberValid(req) then Tx(db, Failure(StatusBadRequest, "Name and role are required"))
          else
            var t := BandRepository.UpdateBandMember(db, memberId, bandId, userId, req, fault);
            Tx(t.db, FromLookup(t.out, StatusOK, "Failed to update band member", "Band member not found"))
  }

  /** DELETE /bands/{bandId}/members/{memberId}: 204 whenever the repository
      reports no error. */
  function DeleteBandMember(db: Db, userId: int, bandIdParam: string, memberIdParam: string, fault: Fault)
    : (r: Tx<Response<()>>)
    ensures Decimal.Atoi(bandIdParam).None? ==> r == Tx(db, Failure(StatusBadRequest, "Invalid band ID format"))
    ensures Decimal.Atoi(bandIdParam).Some? && Decimal.Atoi(memberIdParam).None? ==>
              r == Tx(db, Failure(StatusBadRequest, "Invalid member ID format"))
    ensures Decimal.Atoi(bandIdParam).Some? && Decimal.Atoi(memberIdParam).Some? && !fault.At(0)
            && Decimal.Atoi(bandIdParam).value !in OwnedBandIds(db, userId) ==>
              r == Tx(db, NoContent)
    ensures Decimal.Atoi(bandIdParam).Some? && Decimal.Atoi(memberIdParam).Some?
            && Decimal.Atoi(bandIdParam).value in OwnedBandIds(db, userId) ==>
              (r.out.Status() == StatusNoContent <==> fault.Clear(3))
    ensures Decimal.Atoi(bandIdParam).Some? && Decimal.Atoi(memberIdParam).Some? && r.out.Status() != StatusNoContent ==>
              r.out == Failure(StatusInternalServerError, "Failed to delete band member")
    ensures r.out.Status() == StatusNoContent && Decimal.Atoi(bandIdParam).value in OwnedBandIds(db, userId) ==>
              r.db.members == Filter(db.members, Not(MemberIs(Decimal.Atoi(memberIdParam).value, Decimal.Atoi(bandIdParam).value)))
    ensures r.db == db.(members := r.db.members)
  {
    match Decimal.Atoi(bandIdParam)
    case None => Tx(db, Failure(StatusBadRequest, "Invalid band ID format"))
    case Some(bandId) =>
      match Decimal.Atoi(memberIdParam)
      case None => Tx(db, Failure(StatusBadRequest, "Invalid member ID format"))
      case Some(memberId) =>
        var t := BandRepository.DeleteBandMember(db, memberId, bandId, userId, fault);
        Tx(t.db, FromOutcome(t.out, "Failed to delete band member"))
  }
}
