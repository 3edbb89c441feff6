/** The database-backed playlist and song endpoints, nested under a band.

    Every handler parses the band id first, then the playlist id, then the
    song id, then decodes and validates the body. The acting user's id comes
    from the authentication middleware; a body that does not decode is
    `None`. */
module PlaylistHandler {
  import opened Wrappers
  import opened Schema
  import opened Http
  import Decimal
  import PlaylistRepository
  import SongOrder

  /** The band and playlist path ids, parsed in that order. */
  datatype Ids = Ids(bandId: int, playlistId: int)

  /** The band then playlist path ids, or the 400 for the first that does
      not parse. */
  function ParseIds(bandIdParam: string, playlistIdParam: string): (r: Result<Ids>)
    ensures r.Ok? <==> Decimal.Atoi(bandIdParam).Some? && Decimal.Atoi(playlistIdParam).Some?
    ensures r.Ok? ==> r.value == Ids(Decimal.Atoi(bandIdParam).value, Decimal.Atoi(playlistIdParam).value)
    ensures Decimal.Atoi(bandIdParam).None? ==> r == Err(Error("Invalid band ID format"))
    ensures Decimal.Atoi(bandIdParam).Some? && Decimal.Atoi(playlistIdParam).None? ==>
              r == Err(Error("Invalid playlist ID format"))
  {
    match Decimal.Atoi(bandIdParam)
    case None => Err(Error("Invalid band ID format"))
    case Some(bandId) =>
      match Decimal.Atoi(playlistIdParam)
      case None => Err(Error("Invalid playlist ID format"))
      case Some(playlistId) => Ok(Ids(bandId, playlistId))
  }

  /** Artist and title must be present in a song body. */
  predicate SongValid(req: PlaylistRepository.SongRequest) {
    req.artist != "" && req.title != ""
  }

  /** GET /bands/{bandId}/playlists: another user's band lists nothing. */
  function GetPlaylists(db: Db, userId: int, bandIdParam: string, fault: Fault)
    : (r: Response<seq<PlaylistRepository.PlaylistWithSongs>>)
    ensures Decimal.Atoi(bandIdParam).None? ==> r == Failure(StatusBadRequest, "Invalid band ID format")
    ensures Decimal.Atoi(bandIdParam).Some? && !fault.At(0) && Decimal.Atoi(bandIdParam).value !in OwnedBandIds(db, userId) ==>
              r == Reply(StatusOK, [])
    ensures Decimal.Atoi(bandIdParam).Some? && Decimal.Atoi(bandIdParam).value in OwnedBandIds(db, userId) ==>
              (r.Status() == StatusOK <==>
                 fault.Clear(2 + 2 * |PlaylistRepository.NewestPlaylists(db, Decimal.Atoi(bandIdParam).value)|))
    ensures r.Status() != StatusOK && Decimal.Atoi(bandIdParam).Some? ==>
              r == Failure(StatusInternalServerError, "Failed to get playlists")
    ensures r.Status() == StatusOK ==>
              r.Reply? && forall x :: x in r.body ==> x.playlist in db.playlists && x.playlist.bandId == Decimal.Atoi(bandIdParam).value
    ensures Decimal.Atoi(bandIdParam).Some? && Decimal.Atoi(bandIdParam).value in OwnedBandIds(db, userId) && r.Status() == StatusOK ==>
              var newest := PlaylistRepository.NewestPlaylists(db, Decimal.Atoi(bandIdParam).value);
              r.Reply? && |r.body| == |newest|
              && forall i :: 0 <= i < |r.body| ==>
                   r.body[i].playlist == newest[i] && r.body[i].songCount == |r.body[i].songs|
                   && PlaylistRepository.ListsSongs(db, newest[i].id, r.body[i].songs)
  {
    match Decimal.Atoi(bandIdParam)
    case None => Failure(StatusBadRequest, "Invalid band ID format")
    case Some(bandId) =>
      var res := PlaylistRepository.GetPlaylistsByBandID(db, bandId, userId, fault);
      assert res.Ok? ==> forall x :: x in res.value ==> x.playlist in PlaylistRepository.NewestPlaylists(db, bandId) by {
        if res.Ok? && bandId in OwnedBandIds(db, userId) {
          forall x | x in res.value ensures x.playlist in PlaylistRepository.NewestPlaylists(db, bandId) {
            var i :| 0 <= i < |res.value| && res.value[i] == x;
          }
        }
      }
      FromList(res, "Failed to get playlists")
  }

  /** GET /bands/{bandId}/playlists/{playlistId} */
  function GetPlaylist(db: Db, userId: int, bandIdParam: string, playlistIdParam: string, fault: Fault)
    : (r: Response<PlaylistRepository.PlaylistWithSongs>)
    ensures ParseIds(bandIdParam, playlistIdParam).Err? ==>
              r == Failure(StatusBadRequest, ParseIds(bandIdParam, playlistIdParam).error.msg)
    ensures r.Status() == StatusOK <==>
              ParseIds(bandIdParam, playlistIdParam).Ok? && fault.Clear(4)
              && ParseIds(bandIdParam, playlistIdParam).value.bandId in OwnedBandIds(db, userId)
              && ParseIds(bandIdParam, playlistIdParam).value.playlistId
                   in PlaylistRepository.PlaylistsOfBand(db, ParseIds(bandIdParam, playlistIdParam).value.bandId)
    ensures ParseIds(bandIdParam, playlistIdParam).Ok? && !fault.At(0)
            && ParseIds(bandIdParam, playlistIdParam).value.bandId !in OwnedBandIds(db, userId) ==>
              r == Failure(StatusNotFound, "Playlist not found")
    ensures ParseIds(bandIdParam, playlistIdParam).Ok? ==>
              var ids := ParseIds(bandIdParam, playlistIdParam).value;
              (r.Status() == StatusNotFound <==>
                 !fault.At(0)
                 && (ids.bandId !in OwnedBandIds(db, userId)
                     || (!fault.At(1) && ids.playlistId !in PlaylistRepository.PlaylistsOfBand(db, ids.bandId))))
    ensures ParseIds(bandIdParam, playlistIdParam).Ok? && r.Status() == StatusNotFound ==>
              r == Failure(StatusNotFound, "Playlist not found")
    ensures ParseIds(bandIdParam, playlistIdParam).Ok? && r.Status() != StatusOK && r.Status() != StatusNotFound ==>
              r == Failure(StatusInternalServerError, "Failed to get playlist")
    ensures r.Status() == StatusOK ==>
              r.Reply? && r.body.playlist.id == ParseIds(bandIdParam, playlistIdParam).value.playlistId
              && PlaylistRepository.ListsSongs(db, r.body.playlist.id, r.body.songs)
  {
    match ParseIds(bandIdParam, playlistIdParam)
    case Err(e) => Failure(StatusBadRequest, e.msg)
    case Ok(ids) =>
      FromLookup(PlaylistRepository.GetPlaylistByID(db, ids.playlistId, ids.bandId, userId, fault),
                 StatusOK, "Failed to get playlist", "Playlist not found")
  }

  /** POST /bands/{bandId}/playlists. The name is required; another user's
      band is reported as missing. */
  function CreatePlaylist(db: Db, userId: int, bandIdParam: string, body: Option<PlaylistRepository.PlaylistRequest>, fault: Fault)
    : (r: Tx<Response<PlaylistRepository.PlaylistWithSongs>>)
    ensures Decimal.Atoi(bandIdParam).None? ==> r == Tx(db, Failure(StatusBadRequest, "Invalid band ID format"))
    ensures Decimal.Atoi(bandIdParam).Some? && body.None? ==> r == Tx(db, Failure(StatusBadRequest, "Invalid request body"))
    ensures Decimal.Atoi(bandIdParam).Some? && body.Some? && body.value.name == "" ==>
              r == Tx(db, Failure(StatusBadRequest, "Playlist name is required"))
    ensures r.out.Status() == StatusCreated <==>
              Decimal.Atoi(bandIdParam).Some? && body.Some? && body.value.name != "" && fault.Clear(2)
              && Decimal.Atoi(bandIdParam).value in OwnedBandIds(db, userId)
    ensures Decimal.Atoi(bandIdParam).Some? && body.Some? && body.value.name != "" && !fault.At(0)
            && Decimal.Atoi(bandIdParam).value !in OwnedBandIds(db, userId) ==>
              r == Tx(db, Failure(StatusNotFound, "Band not found"))
    ensures Decimal.Atoi(bandIdParam).Some? && body.Some? && body.value.name != ""
            && (fault.At(0) || (Decimal.Atoi(bandIdParam).value in OwnedBandIds(db, userId) && fault.At(1))) ==>
              r == Tx(db, Failure(StatusInternalServerError, "Failed to create playlist"))
    ensures r.out.Status() != StatusCreated ==> r.db == db
    ensures r.out.Status() == StatusCreated ==>
              r.out.Reply?
              && r.out.body.playlist == Playlist(db.nextPlaylistId, Decimal.Atoi(bandIdParam).value, body.value.name,
                                                 body.value.description, db.clock)
              && r.out.body.songs == [] && r.out.body.songCount == 0
              && r.db == db.(playlists := db.playlists + [r.out.body.playlist],
                             nextPlaylistId := db.nextPlaylistId + 1, clock := db.clock + 1)
  {
    match Decimal.Atoi(bandIdParam)
    case None => Tx(db, Failure(StatusBadRequest, "Invalid band ID format"))
    case Some(bandId) =>
      match body
      case None => Tx(db, Failure(StatusBadRequest, "Invalid request body"))
      case Some(req) =>
        if req.name == "" then Tx(db, Failure(StatusBadRequest, "Playlist name is required"))
        else
          var t := PlaylistRepository.CreatePlaylist(db, bandId, userId, req, fault);
          Tx(t.db, FromLookup(t.out, StatusCreated, "Failed to create playlist", "Band not found"))
  }

  /** PUT /bands/{bandId}/playlists/{playlistId} */
  function UpdatePlaylist(db: Db, userId: int, bandIdParam: string, playlistIdParam: string,
                          body: Option<PlaylistRepository.PlaylistRequest>, fault: Fault): (r: Tx<Response<Playlist>>)
    ensures ParseIds(bandIdParam, playlistIdParam).Err? ==>
              r == Tx(db, Failure(StatusBadRequest, ParseIds(bandIdParam, playlistIdParam).error.msg))
    ensures ParseIds(bandIdParam, playlistIdParam).Ok? && body.None? ==>
              r == Tx(db, Failure(StatusBadRequest, "Invalid request body"))
    ensures ParseIds(bandIdParam, playlistIdParam).Ok? && body.Some? && body.value.name == "" ==>
              r == Tx(db, Failure(StatusBadRequest, "Playlist name is required"))
    ensures r.out.Status() == StatusOK <==>
              ParseIds(bandIdParam, playlistIdParam).Ok? && body.Some? && body.value.name != "" && fault.Clear(2)
              && ParseIds(bandIdParam, playlistIdParam).value.bandId in OwnedBandIds(db, userId)
              && ParseIds(bandIdParam, playlistIdParam).value.playlistId
                   in PlaylistRepository.PlaylistsOfBand(db, ParseIds(bandIdParam, playlistIdParam).value.bandId)
    ensures ParseIds(bandIdParam, playlistIdParam).Ok? && body.Some? && body.value.name != "" ==>
              var ids := ParseIds(bandIdParam, playlistIdParam).value;
              (r.out.Status() == StatusNotFound <==>
                 !fault.At(0)
                 && (ids.bandId !in OwnedBandIds(db, userId)
                     || (!fault.At(1) && ids.playlistId !in PlaylistRepository.PlaylistsOfBand(db, ids.bandId))))
    ensures ParseIds(bandIdParam, playlistIdParam).Ok? && body.Some? && body.value.name != "" && r.out.Status() == StatusNotFound ==>
              r.out == Failure(StatusNotFound, "Playlist not found")
    ensures ParseIds(bandIdParam, playlistIdParam).Ok? && body.Some? && body.value.name != ""
            && r.out.Status() != StatusOK && r.out.Status() != StatusNotFound ==>
              r.out == Failure(StatusInternalServerError, "Failed to update playlist")
    ensures r.out.Status() != StatusOK ==> r.db == db
    ensures r.out.Status() == StatusOK ==>
              r.out.Reply? && r.out.body.id == ParseIds(bandIdParam, playlistIdParam).value.playlistId
              && r.out.body.bandId == ParseIds(bandIdParam, playlistIdParam).value.bandId
              && r.out.body.name == body.value.name && r.out.body.description == body.value.description
              && r.out.body in r.db.playlists && r.db == db.(playlists := r.db.playlists)
  {
    match ParseIds(bandIdParam, playlistIdParam)
    case Err(e) => Tx(db, Failure(StatusBadRequest, e.msg))
    case Ok(ids) =>
      match body
      case None => Tx(db, Failure(StatusBadRequest, "Invalid request body"))
      case Some(req) =>
        if req.name == "" then Tx(db, Failure(StatusBadRequest, "Playlist name is required"))
        else
          var t := PlaylistRepository.UpdatePlaylist(db, ids.playlistId, ids.bandId, userId, req, fault);
          Tx(t.db, FromLookup(t.out, StatusOK, "Failed to update playlist", "Playlist not found"))
  }

  /** DELETE /bands/{bandId}/playlists/{playlistId}: 204 whenever the
      repository reports no error. */
  function DeletePlaylist(db: Db, userId: int, bandIdParam: string, playlistIdParam: string, fault: Fault)
    : (r: Tx<Response<()>>)
    ensures ParseIds(bandIdParam, playlistIdParam).Err? ==>
              r == Tx(db, Failure(StatusBadRequest, ParseIds(bandIdParam, playlistIdParam).error.msg))
    ensures ParseIds(bandIdParam, playlistIdParam).Ok? && !fault.At(0)
            && ParseIds(bandIdParam, playlistIdParam).value.bandId !in OwnedBandIds(db, userId) ==>
              r == Tx(db, NoContent)
    ensures ParseIds(bandIdParam, playlistIdParam).Ok?
            && ParseIds(bandIdParam, playlistIdParam).value.bandId in OwnedBandIds(db, userId) ==>
              (r.out.Status() == StatusNoContent <==> fault.Clear(3))
    ensures ParseIds(bandIdParam, playlistIdParam).Ok? && r.out.Status() != StatusNoContent ==>
              r.out == Failure(StatusInternalServerError, "Failed to delete playlist")
    ensures r.out.Status() == StatusNoContent && ParseIds(bandIdParam, playlistIdParam).value.bandId in OwnedBandIds(db, userId) ==>
              r.db == PlaylistRepository.RemovePlaylist(db, ParseIds(bandIdParam, playlistIdParam).value.playlistId,
                                                        ParseIds(bandIdParam, playlistIdParam).value.bandId)
  {
    match ParseIds(bandIdParam, playlistIdParam)
    case Err(e) => Tx(db, Failure(StatusBadRequest, e.msg))
    case Ok(ids) =>
      ClearNext(fault, 2);
      var t := PlaylistRepository.DeletePlaylist(db, ids.playlistId, ids.bandId, userId, fault);
      Tx(t.db, FromOutcome(t.out, "Failed to delete playlist"))
  }

  /** GET /bands/{bandId}/playlists/{playlistId}/songs */
  function GetPlaylistSongs(db: Db, userId: int, bandIdParam: string, playlistIdParam: string, fault: Fault)
    : (r: Response<seq<Song>>)
    ensures ParseIds(bandIdParam, playlistIdParam).Err? ==>
              r == Failure(StatusBadRequest, ParseIds(bandIdParam, playlistIdParam).error.msg)
    ensures ParseIds(bandIdParam, playlistIdParam).Ok? && !fault.At(0)
            && ParseIds(bandIdParam, playlistIdParam).value.bandId !in OwnedBandIds(db, userId) ==>
              r == Reply(StatusOK, [])
    ensures ParseIds(bandIdParam, playlistIdParam).Ok?
            && ParseIds(bandIdParam, playlistIdParam).value.bandId in OwnedBandIds(db, userId) ==>
              (r.Status() == StatusOK <==> fault.Clear(2))
    ensures r.Status() != StatusOK && ParseIds(bandIdParam, playlistIdParam).Ok? ==>
              r == Failure(StatusInternalServerError, "Failed to get playlist songs")
    ensures r.Status() == StatusOK ==>
              r.Reply? && SongOrder.Sorted(r.body)
              && forall s :: s in r.body ==> s in db.songs && s.playlistId == ParseIds(bandIdParam, playlistIdParam).value.playlistId
    ensures ParseIds(bandIdParam, playlistIdParam).Ok?
            && ParseIds(bandIdParam, playlistIdParam).value.bandId in OwnedBandIds(db, userId) && r.Status() == StatusOK ==>
              var ids := ParseIds(bandIdParam, playlistIdParam).value;
              r.Reply?
              && forall s :: s in r.body <==>
                   s in db.songs && s.playlistId == ids.playlistId && ids.playlistId in PlaylistRepository.PlaylistsOfBand(db, ids.bandId)
  {
    match ParseIds(bandIdParam, playlistIdParam)
    case Err(e) => Failure(StatusBadRequest, e.msg)
    case Ok(ids) =>
      FromList(PlaylistRepository.GetPlaylistSongs(db, ids.playlistId, ids.bandId, userId, fault),
               "Failed to get playlist songs")
  }

  /** POST /bands/{bandId}/playlists/{playlistId}/songs. Artist and title are
      required; a playlist outside the user's band is reported as missing. */
  function AddSong(db: Db, userId: int, bandIdParam: string, playlistIdParam: string,
                   body: Option<PlaylistRepository.SongRequest>, fault: Fault): (r: Tx<Response<Song>>)
    ensures ParseIds(bandIdParam, playlistIdParam).Err? ==>
              r == Tx(db, Failure(StatusBadRequest, ParseIds(bandIdParam, playlistIdParam).error.msg))
    ensures ParseIds(bandIdParam, playlistIdParam).Ok? && body.None? ==>
              r == Tx(db, Failure(StatusBadRequest, "Invalid request body"))
    ensures ParseIds(bandIdParam, playlistIdParam).Ok? && body.Some? && !SongValid(body.value) ==>
              r == Tx(db, Failure(StatusBadRequest, "Artist and song are required"))
    ensures r.out.Status() == StatusCreated <==>
              ParseIds(bandIdParam, playlistIdParam).Ok? && body.Some? && SongValid(body.value) && fault.Clear(3)
              && ParseIds(bandIdParam, playlistIdParam).value.bandId in OwnedBandIds(db, userId)
              && ParseIds(bandIdParam, playlistIdParam).value.playlistId
                   in PlaylistRepository.PlaylistsOfBand(db, ParseIds(bandIdParam, playlistIdParam).value.bandId)
    ensures ParseIds(bandIdParam, playlistIdParam).Ok? && body.Some? && SongValid(body.value) ==>
              var ids := ParseIds(bandIdParam, playlistIdParam).value;
              (r.out.Status() == StatusNotFound <==>
                 !fault.At(0)
                 && (ids.bandId !in OwnedBandIds(db, userId)
                     || (!fault.At(1) && ids.playlistId !in PlaylistRepository.PlaylistsOfBand(db, ids.bandId))))
    ensures ParseIds(bandIdParam, playlistIdParam).Ok? && body.Some? && SongValid(body.value) && r.out.Status() == StatusNotFound ==>
              r.out == Failure(StatusNotFound, "Playlist not found")
    ensures ParseIds(bandIdParam, playlistIdParam).Ok? && body.Some? && SongValid(body.value)
            && r.out.Status() != StatusCreated && r.out.Status() != StatusNotFound ==>
              r.out == Failure(StatusInternalServerError, "Failed to add song")
    ensures r.out.Status() != StatusCreated ==> r.db == db
    ensures r.out.Status() == StatusCreated ==>
              r.out.Reply?
              && r.out.body == Song(db.nextSongId, ParseIds(bandIdParam, playlistIdParam).value.playlistId, body.value.artist,
                                    body.value.title, body.value.notes, body.value.position, db.clock)
              && r.db == db.(songs := db.songs + [r.out.body], nextSongId := db.nextSongId + 1, clock := db.clock + 1)
  {
    match ParseIds(bandIdParam, playlistIdParam)
    case Err(e) => Tx(db, Failure(StatusBadRequest, e.msg))
    case Ok(ids) =>
      match body
      case None => Tx(db, Failure(StatusBadRequest, "Invalid request body"))
      case Some(req) =>
        if !SongValid(req) then Tx(db, Failure(StatusBadRequest, "Artist and song are required"))
        else
          var t := PlaylistRepository.AddSong(db, ids.playlistId, ids.bandId, userId, req, fault);
          Tx(t.db, FromLookup(t.out, StatusCreated, "Failed to add song", "Playlist not found"))
  }

  /** PUT /bands/{bandId}/playlists/{playlistId}/songs/{songId} */
  function UpdateSong(db: Db, userId: int, bandIdParam: string, playlistIdParam: string, songIdParam: string,
                      body: Option<PlaylistRepository.SongRequest>, fault: Fault): (r: Tx<Response<Song>>)
    ensures ParseIds(bandIdParam, playlistIdParam).Err? ==>
              r == Tx(db, Failure(StatusBadRequest, ParseIds(bandIdParam, playlistIdParam).error.msg))
    ensures ParseIds(bandIdParam, playlistIdParam).Ok? && Decimal.Atoi(songIdParam).None? ==>
              r == Tx(db, Failure(StatusBadRequest, "Invalid song ID format"))
    ensures ParseIds(bandIdParam, playlistIdParam).Ok? && Decimal.Atoi(songIdParam).Some? && body.None? ==>
              r == Tx(db, Failure(StatusBadRequest, "Invalid request body"))
    ensures ParseIds(bandIdParam, playlistIdParam).Ok? && Decimal.Atoi(songIdParam).Some? && body.Some? && !SongValid(body.value) ==>
              r == Tx(db, Failure(StatusBadRequest, "Artist and song are required"))
    ensures ParseIds(bandIdParam, playlistIdParam).Ok? && Decimal.Atoi(songIdParam).Some? && body.Some? && SongValid(body.value) ==>
              var ids := ParseIds(bandIdParam, playlistIdParam).value;
              var songId := Decimal.Atoi(songIdParam).value;
              (r.out.Status() == StatusNotFound <==>
                 !fault.At(0)
                 && (ids.bandId !in OwnedBandIds(db, userId)
                     || (!fault.At(1)
                         && (ids.playlistId !in PlaylistRepository.PlaylistsOfBand(db, ids.bandId)
                             || forall s :: s in db.songs ==> !(s.id == songId && s.playlistId == ids.playlistId)))))
    ensures ParseIds(bandIdParam, playlistIdParam).Ok? && Decimal.Atoi(songIdParam).Some? && body.Some? && SongValid(body.value)
            && r.out.Status() == StatusNotFound ==>
              r.out == Failure(StatusNotFound, "Song not found")
    ensures ParseIds(bandIdParam, playlistIdParam).Ok? && Decimal.Atoi(songIdParam).Some? && body.Some? && SongValid(body.value)
            && r.out.Status() != StatusOK && r.out.Status() != StatusNotFound ==>
              r.out == Failure(StatusInternalServerError, "Failed to update song")
    ensures r.out.Status() == StatusOK <==>
              ParseIds(bandIdParam, playlistIdParam).Ok? && Decimal.Atoi(songIdParam).Some? && body.Some? && SongValid(body.value)
              && fault.Clear(2)
              && ParseIds(bandIdParam, playlistIdParam).value.bandId in OwnedBandIds(db, userId)
              && ParseIds(bandIdParam, playlistIdParam).value.playlistId
                   in PlaylistRepository.PlaylistsOfBand(db, ParseIds(bandIdParam, playlistIdParam).value.bandId)
              && exists s :: s in db.songs && s.id == Decimal.Atoi(songIdParam).value
                             && s.playlistId == ParseIds(bandIdParam, playlistIdParam).value.playlistId
    ensures r.out.Status() != StatusOK ==> r.db == db
    ensures r.out.Status() == StatusOK ==>
              r.out.Reply? && r.out.body.id == Decimal.Atoi(songIdParam).value
              && r.out.body.playlistId == ParseIds(bandIdParam, playlistIdParam).value.playlistId
              && r.out.body in r.db.songs && r.db == db.(songs := r.db.songs)
              && r.out.body.artist == body.value.artist && r.out.body.title == body.value.title
              && r.out.body.notes == body.value.notes && r.out.body.position == body.value.position
  {
    match ParseIds(bandIdParam, playlistIdParam)
    case Err(e) => Tx(db, Failure(StatusBadRequest, e.msg))
    case Ok(ids) =>
      match Decimal.Atoi(songIdParam)
      case None => Tx(db, Failure(StatusBadRequest, "Invalid song ID format"))
      case Some(songId) =>
        match body
        case None => Tx(db, Failure(StatusBadRequest, "Invalid request body"))
        case Some(req) =>
          if !SongValid(req) then Tx(db, Failure(StatusBadRequest, "Artist and song are required"))
          else
            var t := PlaylistRepository.UpdateSong(db, songId, ids.playlistId, ids.bandId, userId, req, fault);
            Tx(t.db, FromLookup(t.out, StatusOK, "Failed to update song", "Song not found"))
  }

  /** DELETE /bands/{bandId}/playlists/{playlistId}/songs/{songId}: 204
      whenever the repository reports no error. */
  function DeleteSong(db: Db, userId: int, bandIdParam: string, playlistIdParam: string, songIdParam: string, fault: Fault)
    : (r: Tx<Response<()>>)
    ensures ParseIds(bandIdParam, playlistIdParam).Err? ==>
              r == Tx(db, Failure(StatusBadRequest, ParseIds(bandIdParam, playlistIdParam).error.msg))
    ensures ParseIds(bandIdParam, playlistIdParam).Ok? && Decimal.Atoi(songIdParam).None? ==>
              r == Tx(db, Failure(StatusBadRequest, "Invalid song ID format"))
    ensures ParseIds(bandIdParam, playlistIdParam).Ok? && Decimal.Atoi(songIdParam).Some?
            && ParseIds(bandIdParam, playlistIdParam).value.bandId in OwnedBandIds(db, userId) ==>
              (r.out.Status() == StatusNoContent <==> fault.Clear(3))
    ensures ParseIds(bandIdParam, playlistIdParam).Ok? && Decimal.Atoi(songIdParam).Some? && !fault.At(0)
            && ParseIds(bandIdParam, playlistIdParam).value.bandId !in OwnedBandIds(db, userId) ==>
              r == Tx(db, NoContent)
    ensures ParseIds(bandIdParam, playlistIdParam).Ok? && Decimal.Atoi(songIdParam).Some? && r.out.Status() != StatusNoContent ==>
              r.out == Failure(StatusInternalServerError, "Failed to delete song")
    ensures ParseIds(bandIdParam, playlistIdParam).Ok? && Decimal.Atoi(songIdParam).Some? && r.out.Status() == StatusNoContent
            && ParseIds(bandIdParam, playlistIdParam).value.bandId in OwnedBandIds(db, userId)
            && ParseIds(bandIdParam, playlistIdParam).value.playlistId
                 in PlaylistRepository.PlaylistsOfBand(db, ParseIds(bandIdParam, playlistIdParam).value.bandId) ==>
              forall s :: s in r.db.songs <==>
                s in db.songs && !(s.id == Decimal.Atoi(songIdParam).value && s.playlistId == ParseIds(bandIdParam, playlistIdParam).value.playlistId)
    ensures r.db == db.(songs := r.db.songs)
    ensures forall s :: s in db.songs && s !in r.db.songs ==>
              s.id == Decimal.Atoi(songIdParam).value && s.playlistId == ParseIds(bandIdParam, playlistIdParam).value.playlistId
  {
    match ParseIds(bandIdParam, playlistIdParam)
    case Err(e) => Tx(db, Failure(StatusBadRequest, e.msg))
    case Ok(ids) =>
      match Decimal.Atoi(songIdParam)
      case None => Tx(db, Failure(StatusBadRequest, "Invalid song ID format"))
      case Some(songId) =>
        var t := PlaylistRepository.DeleteSong(db, songId, ids.playlistId, ids.bandId, userId, fault);
        Tx(t.db, FromOutcome(t.out, "Failed to delete song"))
  }
}
