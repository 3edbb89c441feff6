/** The in-memory band endpoints: a package-level slice of bands and the
    next id, every request scoped to the user the middleware admitted. */
module MemoryBands {
  import opened Wrappers
  import opened Seqs
  import opened Http
  import Decimal

  datatype Band = Band(id: int, name: string, description: string, userId: int, memberCount: int)

  /** CreateBandRequest and UpdateBandRequest. */
  datatype BandRequest = BandRequest(name: string, description: string)

  /** `bands` and `nextBandID`. */
  datatype Bands = Bands(bands: seq<Band>, nextId: int)

  const Initial: Bands := Bands([], 1)

  function BandId(b: Band): int {
    b.id
  }

  function OwnedBy(userId: int): Band -> bool {
    (b: Band) => b.userId == userId
  }

  /** The band with this id, if the user owns it. */
  function BandIs(id: int, userId: int): Band -> bool {
    (b: Band) => b.id == id && b.userId == userId
  }

  /** Ids increase along the slice and lie below the next id. */
  ghost predicate Inv(s: Bands) {
    Increasing(s.bands, BandId) && KeysBelow(s.bands, BandId, s.nextId)
  }

  /** GET /bands: the user's bands in stored order. */
  function GetBands(s: Bands, userId: int): (r: Response<seq<Band>>)
    ensures r.Reply? && r.code == StatusOK
    ensures forall b :: b in r.body <==> b in s.bands && b.userId == userId
    ensures Inv(s) ==> Increasing(r.body, BandId)
  {
    OwnedBandsIncreasing(s, userId);
    Reply(StatusOK, Filter(s.bands, OwnedBy(userId)))
  }

  lemma OwnedBandsIncreasing(s: Bands, userId: int)
    ensures Inv(s) ==> Increasing(Filter(s.bands, OwnedBy(userId)), BandId)
  {
    if Inv(s) {
      FilterIncreasing(s.bands, OwnedBy(userId), BandId);
    }
  }

  /** POST /bands: a band with the next id, owned by the user, with no
      members. */
  function CreateBand(s: Bands, userId: int, body: Option<BandRequest>): (r: Step<Bands, Band>)
    ensures body.None? ==> r == Step(s, Failure(StatusBadRequest, "Invalid request body"))
    ensures body.Some? && body.value.name == "" ==> r == Step(s, Failure(StatusBadRequest, "Band name is required"))
    ensures r.out.Status() == StatusCreated <==> body.Some? && body.value.name != ""
    ensures r.out.Status() == StatusCreated ==>
              r.out == Reply(StatusCreated, Band(s.nextId, body.value.name, body.value.description, userId, 0))
              && r.state == Bands(s.bands + [r.out.body], s.nextId + 1)
    ensures r.out.Status() != StatusCreated ==> r.state == s
  {
    match body
    case None => Step(s, Failure(StatusBadRequest, "Invalid request body"))
    case Some(req) =>
      if req.name == "" then Step(s, Failure(StatusBadRequest, "Band name is required"))
      else
        var b := Band(s.nextId, req.name, req.description, userId, 0);
        Step(Bands(s.bands + [b], s.nextId + 1), Reply(StatusCreated, b))
  }

  /** GET /bands/{id}: the first band with the id that the user owns;
      someone else's band is not found. */
  function GetBand(s: Bands, userId: int, idParam: string): (r: Response<Band>)
    ensures Decimal.Atoi(idParam).None? ==> r == Failure(StatusBadRequest, "Invalid ID format")
    ensures r.Status() == StatusOK <==>
              Decimal.Atoi(idParam).Some? && exists b :: b in s.bands && b.id == Decimal.Atoi(idParam).value && b.userId == userId
    ensures Decimal.Atoi(idParam).Some? && r.Status() != StatusOK ==> r == Failure(StatusNotFound, "Band not found")
    ensures r.Status() == StatusOK ==>
              r.Reply? && r.body.id == Decimal.Atoi(idParam).value && r.body.userId == userId
              && exists i :: 0 <= i < |s.bands| && s.bands[i] == r.body
                             && forall j :: 0 <= j < i ==> !(s.bands[j].id == Decimal.Atoi(idParam).value && s.bands[j].userId == userId)
  {
    match Decimal.Atoi(idParam)
    case None => Failure(StatusBadRequest, "Invalid ID format")
    case Some(id) =>
      match IndexOf(s.bands, BandIs(id, userId))
      case None =>
        assert forall b :: b in s.bands ==> !(b.id == id && b.userId == userId) by {
          forall b | b in s.bands ensures !(b.id == id && b.userId == userId) {
            assert !BandIs(id, userId)(b);
          }
        }
        Failure(StatusNotFound, "Band not found")
      case Some(i) =>
        FirstBandIs(s.bands, id, userId, i);
        Reply(StatusOK, s.bands[i])
  }

  /** What IndexOf's contract says about the first owned band with an id,
      in terms of the band's fields. */
  lemma FirstBandIs(bands: seq<Band>, id: int, userId: int, i: nat)
    requires IndexOf(bands, BandIs(id, userId)) == Some(i)
    ensures i < |bands| && bands[i] in bands && bands[i].id == id && bands[i].userId == userId
    ensures forall j :: 0 <= j < i ==> !(bands[j].id == id && bands[j].userId == userId)
  {
    forall j | 0 <= j < i ensures !(bands[j].id == id && bands[j].userId == userId) {
      assert !BandIs(id, userId)(bands[j]);
    }
  }

  /** PUT /bands/{id}: the name and description of the first band with the
      id that the user owns change; its id, owner and member count stay. */
  function UpdateBand(s: Bands, userId: int, idParam: string, body: Option<BandRequest>): (r: Step<Bands, Band>)
    ensures Decimal.Atoi(idParam).None? ==> r == Step(s, Failure(StatusBadRequest, "Invalid ID format"))
    ensures Decimal.Atoi(idParam).Some? && body.None? ==> r == Step(s, Failure(StatusBadRequest, "Invalid request body"))
    ensures Decimal.Atoi(idParam).Some? && body.Some? && body.value.name == "" ==>
              r == Step(s, Failure(StatusBadRequest, "Band name is required"))
    ensures r.out.Status() == StatusOK <==>
              Decimal.Atoi(idParam).Some? && body.Some? && body.value.name != ""
              && exists b :: b in s.bands && b.id == Decimal.Atoi(idParam).value && b.userId == userId
    ensures Decimal.Atoi(idParam).Some? && body.Some? && body.value.name != "" && r.out.Status() != StatusOK ==>
              r == Step(s, Failure(StatusNotFound, "Band not found"))
    ensures r.out.Status() != StatusOK ==> r.state == s
    ensures r.out.Status() == StatusOK ==>
              r.out.Reply? && r.state.nextId == s.nextId
              && exists i :: 0 <= i < |s.bands| && s.bands[i].id == Decimal.Atoi(idParam).value && s.bands[i].userId == userId
                             && (forall j :: 0 <= j < i ==> !(s.bands[j].id == Decimal.Atoi(idParam).value && s.bands[j].userId == userId))
                             && r.out.body == s.bands[i].(name := body.value.name, description := body.value.description)
                             && r.state.bands == s.bands[i := r.out.body]
  {
    match Decimal.Atoi(idParam)
    case None => Step(s, Failure(StatusBadRequest, "Invalid ID format"))
    case Some(id) =>
      match body
      case None => Step(s, Failure(StatusBadRequest, "Invalid request body"))
      case Some(req) =>
        if req.name == "" then Step(s, Failure(StatusBadRequest, "Band name is required"))
        else
          match IndexOf(s.bands, BandIs(id, userId))
          case None => Step(s, Failure(StatusNotFound, "Band not found"))
          case Some(i) =>
            FirstBandIs(s.bands, id, userId, i);
            var updated := s.bands[i].(name := req.name, description := req.description);
            Step(s.(bands := s.bands[i := updated]), Reply(StatusOK, updated))
  }

  /** DELETE /bands/{id}: the first band with the id that the user owns is
      removed and the others keep their order. */
  function DeleteBand(s: Bands, userId: int, idParam: string): (r: Step<Bands, ()>)
    ensures Decimal.Atoi(idParam).None? ==> r == Step(s, Failure(StatusBadRequest, "Invalid ID format"))
    ensures r.out.Status() == StatusNoContent <==>
              Decimal.Atoi(idParam).Some? && exists b :: b in s.bands && b.id == Decimal.Atoi(idParam).value && b.userId == userId
    ensures Decimal.Atoi(idParam).Some? && r.out.Status() != StatusNoContent ==>
              r == Step(s, Failure(StatusNotFound, "Band not found"))
    ensures r.out.Status() != StatusNoContent ==> r.state == s
    ensures r.out.Status() == StatusNoContent ==>
              r.out == NoContent && r.state.nextId == s.nextId
              && exists i :: 0 <= i < |s.bands| && s.bands[i].id == Decimal.Atoi(idParam).value && s.bands[i].userId == userId
                             && (forall j :: 0 <= j < i ==> !(s.bands[j].id == Decimal.Atoi(idParam).value && s.bands[j].userId == userId))
                             && r.state.bands == RemoveAt(s.bands, i)
  {
    match Decimal.Atoi(idParam)
    case None => Step(s, Failure(StatusBadRequest, "Invalid ID format"))
    case Some(id) =>
      match IndexOf(s.bands, BandIs(id, userId))
      case None => Step(s, Failure(StatusNotFound, "Band not found"))
      case Some(i) =>
        FirstBandIs(s.bands, id, userId, i);
        Step(s.(bands := RemoveAt(s.bands, i)), NoContent)
  }

  lemma InitialInv()
    ensures Inv(Initial)
  {
  }

  lemma CreateBandInv(s: Bands, userId: int, body: Option<BandRequest>)
    requires Inv(s)
    ensures Inv(CreateBand(s, userId, body).state)
  {
    var r := CreateBand(s, userId, body);
    if r.out.Status() == StatusCreated {
      SnocIncreasing(s.bands, r.out.body, BandId);
    }
  }

  lemma UpdateBandInv(s: Bands, userId: int, idParam: string, body: Option<BandRequest>)
    requires Inv(s)
    ensures Inv(UpdateBand(s, userId, idParam, body).state)
  {
    var r := UpdateBand(s, userId, idParam, body);
    if r.out.Status() == StatusOK {
      var i :| 0 <= i < |s.bands| && r.out.body == s.bands[i].(name := body.value.name, description := body.value.description)
               && r.state.bands == s.bands[i := r.out.body];
      ReplaceIncreasing(s.bands, i, r.out.body, BandId);
      ReplaceKeysBelow(s.bands, i, r.out.body, BandId, s.nextId);
    }
  }

  lemma DeleteBandInv(s: Bands, userId: int, idParam: string)
    requires Inv(s)
    ensures Inv(DeleteBand(s, userId, idParam).state)
  {
    var r := DeleteBand(s, userId, idParam);
    if r.out.Status() == StatusNoContent {
      var i :| 0 <= i < |s.bands| && r.state.bands == RemoveAt(s.bands, i);
      RemoveAtIncreasing(s.bands, i, BandId);
    }
  }

  /** A new band is listed last among its owner's bands. */
  lemma CreateBandThenListed(s: Bands, userId: int, body: Option<BandRequest>)
    requires CreateBand(s, userId, body).out.Status() == StatusCreated
    ensures GetBands(CreateBand(s, userId, body).state, userId).body
            == GetBands(s, userId).body + [CreateBand(s, userId, body).out.body]
  {
    FilterSnoc(s.bands, CreateBand(s, userId, body).out.body, OwnedBy(userId));
  }

  /** No request of one user changes what another user's GetBands lists. */
  lemma OtherUsersUnaffected(s: Bands, userId: int, other: int, idParam: string, body: Option<BandRequest>)
    requires other != userId
    ensures GetBands(CreateBand(s, userId, body).state, other) == GetBands(s, other)
    ensures GetBands(UpdateBand(s, userId, idParam, body).state, other) == GetBands(s, other)
    ensures GetBands(DeleteBand(s, userId, idParam).state, other) == GetBands(s, other)
  {
    var p := OwnedBy(other);
    var c := CreateBand(s, userId, body);
    if c.out.Status() == StatusCreated {
      FilterSnoc(s.bands, c.out.body, p);
    }
    var u := UpdateBand(s, userId, idParam, body);
    if u.out.Status() == StatusOK {
      var i :| 0 <= i < |s.bands| && s.bands[i].userId == userId
               && u.out.body == s.bands[i].(name := body.value.name, description := body.value.description)
               && u.state.bands == s.bands[i := u.out.body];
      FilterReplace(s.bands, i, u.out.body, p);
    }
    var d := DeleteBand(s, userId, idParam);
    if d.out.Status() == StatusNoContent {
      var i :| 0 <= i < |s.bands| && s.bands[i].userId == userId && d.state.bands == RemoveAt(s.bands, i);
      FilterRemoveAt(s.bands, i, p);
    }
  }

  /** Because ids are distinct, a deleted band is gone and every other band
      remains. */
  lemma DeleteBandRemovesExactly(s: Bands, userId: int, idParam: string)
    requires Inv(s)
    requires DeleteBand(s, userId, idParam).out.Status() == StatusNoContent
    ensures forall b :: b in DeleteBand(s, userId, idParam).state.bands <==> b in s.bands && b.id != Decimal.Atoi(idParam).value
  {
    var r := DeleteBand(s, userId, idParam);
    var i :| 0 <= i < |s.bands| && s.bands[i].id == Decimal.Atoi(idParam).value && r.state.bands == RemoveAt(s.bands, i);
    RemoveAtKey(s.bands, i, BandId);
  }
}
