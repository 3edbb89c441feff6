/** BandPlaylistRepository: a band's playlists and their songs.

    Every operation first checks that `userId` owns `bandId` (call 0, shared
    with the member operations) and treats a band it does not own as
    missing. Song operations additionally require the playlist to belong to
    that band. */
module PlaylistRepository {
  import opened Wrappers
  import opened Seqs
  import opened Schema
  import opened SongOrder
  import BandRepository
  import Decimal

  /** A playlist together with its songs in playing order. */
  datatype PlaylistWithSongs = PlaylistWithSongs(playlist: Playlist, songs: seq<Song>, songCount: int)

  /** CreatePlaylistRequest and UpdatePlaylistRequest. */
  datatype PlaylistRequest = PlaylistRequest(name: string, description: string)

  /** AddSongRequest and UpdateSongRequest. */
  datatype SongRequest = SongRequest(artist: string, title: string, notes: string, position: int)

  function WithSongs(p: Playlist, songs: seq<Song>): (r: PlaylistWithSongs)
    ensures r.playlist == p && r.songs == songs && r.songCount == |songs|
  {
    PlaylistWithSongs(p, songs, |songs|)
  }

  /** Ids of the playlists of one band: the `playlist_id IN (SELECT id FROM
      band_playlists WHERE band_id = ...)` subquery. */
  function PlaylistsOfBand(db: Db, bandId: int): set<int> {
    set p | p in db.playlists && p.bandId == bandId :: p.id
  }

  /** `songs` are exactly the songs of the playlist, in playing order. */
  ghost predicate ListsSongs(db: Db, playlistId: int, songs: seq<Song>) {
    Sorted(songs) && forall s :: s in songs <==> s in db.songs && s.playlistId == playlistId
  }

  /** The join of songs with their playlist, restricted to one band. */
  function JoinSongs(db: Db, playlistId: int, bandId: int): (r: seq<Song>)
    ensures forall s :: s in r <==> s in db.songs && s.playlistId == playlistId && playlistId in PlaylistsOfBand(db, bandId)
  {
    if playlistId in PlaylistsOfBand(db, bandId) then Filter(db.songs, SongOf(playlistId)) else []
  }

  /** GetPlaylistSongs. Calls: 0 the ownership check, 1 the joined SELECT
      ordered by position, then creation. A band the user does not own gives
      no songs and no error. */
  function GetPlaylistSongs(db: Db, playlistId: int, bandId: int, userId: int, fault: Fault): (r: Result<seq<Song>>)
    ensures fault.At(0) ==> r == Err(Error(Wrap("failed to verify band ownership", fault.driverMsg)))
    ensures !fault.At(0) && bandId !in OwnedBandIds(db, userId) ==> r == Ok([])
    ensures bandId in OwnedBandIds(db, userId) ==> (r.Ok? <==> fault.Clear(2))
    ensures r.Ok? && bandId in OwnedBandIds(db, userId) ==>
              Sorted(r.value)
              && forall s :: s in r.value <==> s in db.songs && s.playlistId == playlistId && playlistId in PlaylistsOfBand(db, bandId)
  {
    ClearNext(fault, 0);
    ClearNext(fault, 1);
    match BandRepository.VerifyOwnership(db, bandId, userId, fault)
    case Err(e) => Err(e)
    case Ok(false) => Ok([])
    case Ok(true) =>
      if fault.At(1) then Err(Error(Wrap("failed to get playlist songs", fault.driverMsg)))
      else
        var joined := JoinSongs(db, playlistId, bandId);
        var sorted := SortSongs(joined);
        assert forall s :: s in sorted <==> s in joined by {
          forall s ensures s in sorted <==> s in joined {
            assert s in sorted <==> s in multiset(sorted);
            assert s in joined <==> s in multiset(joined);
          }
        }
        Ok(sorted)
  }

  /** The error a failing song query of a listed playlist produces. */
  function SongsError(playlistId: int, inner: Error): Error {
    Error(Wrap("failed to get songs for playlist " + Decimal.Itoa(playlistId), inner.msg))
  }

  /** The songs of one listed playlist of an owned band: two calls. */
  function ListedSongs(db: Db, p: Playlist, userId: int, fault: Fault): (r: Result<seq<Song>>)
    requires p in db.playlists && p.bandId in OwnedBandIds(db, userId)
    ensures r.Ok? <==> fault.Clear(2)
    ensures r.Ok? ==> ListsSongs(db, p.id, r.value)
  {
    assert p.id in PlaylistsOfBand(db, p.bandId);
    GetPlaylistSongs(db, p.id, p.bandId, userId, fault)
  }

  /** GetPlaylistSongs for each playlist in turn, two calls each; the first
      failure ends the loop. */
  function AttachSongs(db: Db, playlists: seq<Playlist>, bandId: int, userId: int, fault: Fault): (r: Result<seq<PlaylistWithSongs>>)
    requires bandId in OwnedBandIds(db, userId)
    requires forall i :: 0 <= i < |playlists| ==> playlists[i] in db.playlists && playlists[i].bandId == bandId
    ensures r.Ok? <==> fault.Clear(2 * |playlists|)
    ensures r.Ok? ==> Attached(db, playlists, r.value)
    decreases |playlists|
  {
    if playlists == [] then Ok([])
    else
      var p := playlists[0];
      ClearShift(fault, 2, 2 * |playlists| - 2);
      match ListedSongs(db, p, userId, fault)
      case Err(e) => Err(SongsError(p.id, e))
      case Ok(songs) =>
        match AttachSongs(db, playlists[1..], bandId, userId, fault.Shift(2))
        case Err(e) => Err(e)
        case Ok(rest) =>
          AttachedCons(db, playlists, songs, rest);
          Ok([WithSongs(p, songs)] + rest)
  }

  /** Each playlist paired with its own songs. */
  ghost predicate Attached(db: Db, playlists: seq<Playlist>, r: seq<PlaylistWithSongs>) {
    |r| == |playlists|
    && forall i :: 0 <= i < |playlists| ==>
         r[i].playlist == playlists[i] && r[i].songCount == |r[i].songs| && ListsSongs(db, playlists[i].id, r[i].songs)
  }

  lemma AttachedCons(db: Db, playlists: seq<Playlist>, songs: seq<Song>, rest: seq<PlaylistWithSongs>)
    requires playlists != [] && ListsSongs(db, playlists[0].id, songs)
    requires Attached(db, playlists[1..], rest)
    ensures Attached(db, playlists, [WithSongs(playlists[0], songs)] + rest)
  {
    var all := [WithSongs(playlists[0], songs)] + rest;
    forall i | 1 <= i < |playlists|
      ensures all[i].playlist == playlists[i] && all[i].songCount == |all[i].songs| && ListsSongs(db, playlists[i].id, all[i].songs)
    {
      assert all[i] == rest[i - 1] && playlists[i] == playlists[1..][i - 1];
    }
  }

  /** The band's playlists in `ORDER BY created_at DESC` order. */
  function NewestPlaylists(db: Db, bandId: int): (ps: seq<Playlist>)
    ensures |ps| == |Filter(db.playlists, PlaylistOf(bandId))|
    ensures forall i :: 0 <= i < |ps| ==> ps[i] == Filter(db.playlists, PlaylistOf(bandId))[|ps| - 1 - i]
    ensures forall p :: p in ps <==> p in db.playlists && p.bandId == bandId
  {
    Reverse(Filter(db.playlists, PlaylistOf(bandId)))
  }

  /** GetPlaylistsByBandID. Calls: 0 the ownership check, 1 the playlists
      SELECT, then two per playlist for its songs. A band the user does not
      own gives an empty list and no error. */
  function GetPlaylistsByBandID(db: Db, bandId: int, userId: int, fault: Fault): (r: Result<seq<PlaylistWithSongs>>)
    ensures fault.At(0) ==> r == Err(Error(Wrap("failed to verify band ownership", fault.driverMsg)))
    ensures !fault.At(0) && bandId !in OwnedBandIds(db, userId) ==> r == Ok([])
    ensures bandId in OwnedBandIds(db, userId) && fault.At(1) ==> r == Err(Error(Wrap("failed to get playlists", fault.driverMsg)))
    ensures bandId in OwnedBandIds(db, userId) ==> (r.Ok? <==> fault.Clear(2 + 2 * |NewestPlaylists(db, bandId)|))
    ensures r.Ok? && bandId in OwnedBandIds(db, userId) ==>
              |r.value| == |NewestPlaylists(db, bandId)|
              && forall i :: 0 <= i < |r.value| ==>
                   r.value[i].playlist == NewestPlaylists(db, bandId)[i]
                   && r.value[i].songCount == |r.value[i].songs|
                   && ListsSongs(db, r.value[i].playlist.id, r.value[i].songs)
  {
    ClearNext(fault, 0);
    ClearNext(fault, 1);
    match BandRepository.VerifyOwnership(db, bandId, userId, fault)
    case Err(e) => Err(e)
    case Ok(false) => Ok([])
    case Ok(true) =>
      if fault.At(1) then Err(Error(Wrap("failed to get playlists", fault.driverMsg)))
      else
        var playlists := NewestPlaylists(db, bandId);
        ClearShift(fault, 2, 2 * |playlists|);
        AttachSongs(db, playlists, bandId, userId, fault.Shift(2))
  }

  /** GetPlaylistByID. Calls: 0 the ownership check, 1 the playlist SELECT,
      2 and 3 its songs. */
  function GetPlaylistByID(db: Db, playlistId: int, bandId: int, userId: int, fault: Fault): (r: Result<Option<PlaylistWithSongs>>)
    ensures fault.At(0) ==> r == Err(Error(Wrap("failed to verify band ownership", fault.driverMsg)))
    ensures !fault.At(0) && bandId !in OwnedBandIds(db, userId) ==> r == Ok(None)
    ensures r.Ok? && r.value.Some? <==>
              fault.Clear(4) && bandId in OwnedBandIds(db, userId) && playlistId in PlaylistsOfBand(db, bandId)
    ensures r == Ok(None) <==>
              !fault.At(0) && (bandId !in OwnedBandIds(db, userId) || (!fault.At(1) && playlistId !in PlaylistsOfBand(db, bandId)))
    ensures r.Ok? && r.value.Some? ==>
              var x := r.value.value;
              x.playlist in db.playlists && x.playlist.id == playlistId && x.playlist.bandId == bandId
              && x.songCount == |x.songs| && ListsSongs(db, playlistId, x.songs)
  {
    ClearNext(fault, 0);
    ClearNext(fault, 1);
    ClearShift(fault, 2, 2);
    match BandRepository.VerifyOwnership(db, bandId, userId, fault)
    case Err(e) => Err(e)
    case Ok(false) => Ok(None)
    case Ok(true) =>
      if fault.At(1) then Err(Error(Wrap("failed to get playlist", fault.driverMsg)))
      else
        match First(db.playlists, PlaylistIs(playlistId, bandId))
        case None =>
          assert playlistId !in PlaylistsOfBand(db, bandId) by {
            forall p | p in db.playlists && p.bandId == bandId ensures p.id != playlistId {
              assert !PlaylistIs(playlistId, bandId)(p);
            }
          }
          Ok(None)
        case Some(p) =>
          assert p.id in PlaylistsOfBand(db, bandId);
          match GetPlaylistSongs(db, p.id, bandId, userId, fault.Shift(2))
          case Err(e) => Err(SongsError(p.id, e))
          case Ok(songs) => Ok(Some(WithSongs(p, songs)))
  }

  /** CreatePlaylist. Calls: 0 the ownership check, 1 the INSERT. The new
      playlist has no songs. */
  function CreatePlaylist(db: Db, bandId: int, userId: int, req: PlaylistRequest, fault: Fault): (r: Tx<Result<Option<PlaylistWithSongs>>>)
    ensures !(r.out.Ok? && r.out.value.Some?) ==> r.db == db
    ensures fault.At(0) ==> r.out == Err(Error(Wrap("failed to verify band ownership", fault.driverMsg)))
    ensures !fault.At(0) && bandId !in OwnedBandIds(db, userId) ==> r == Tx(db, Ok(None))
    ensures r.out.Ok? && r.out.value.Some? <==> fault.Clear(2) && bandId in OwnedBandIds(db, userId)
    ensures r.out == Ok(None) <==> !fault.At(0) && bandId !in OwnedBandIds(db, userId)
    ensures r.out.Ok? && r.out.value.Some? ==>
              var x := r.out.value.value;
              x.playlist == Playlist(db.nextPlaylistId, bandId, req.name, req.description, db.clock)
              && x.songs == [] && x.songCount == 0
              && r.db == db.(playlists := db.playlists + [x.playlist],
                             nextPlaylistId := db.nextPlaylistId + 1, clock := db.clock + 1)
  {
    ClearNext(fault, 0);
    ClearNext(fault, 1);
    match BandRepository.VerifyOwnership(db, bandId, userId, fault)
    case Err(e) => Tx(db, Err(e))
    case Ok(false) => Tx(db, Ok(None))
    case Ok(true) =>
      if fault.At(1) then Tx(db, Err(Error(Wrap("failed to create playlist", fault.driverMsg))))
      else
        var p := Playlist(db.nextPlaylistId, bandId, req.name, req.description, db.clock);
        Tx(db.(playlists := db.playlists + [p], nextPlaylistId := db.nextPlaylistId + 1, clock := db.clock + 1),
           Ok(Some(WithSongs(p, []))))
  }

  /** The SET clause of UpdatePlaylist, applied to the row matching
      (playlist id, band id). */
  function RenamePlaylist(playlistId: int, bandId: int, req: PlaylistRequest): Playlist -> Playlist {
    (p: Playlist) =>
      if p.id == playlistId && p.bandId == bandId then p.(name := req.name, description := req.description) else p
  }

  /** UpdatePlaylist. Calls: 0 the ownership check, 1 the UPDATE ...
      RETURNING. */
  function UpdatePlaylist(db: Db, playlistId: int, bandId: int, userId: int, req: PlaylistRequest, fault: Fault): (r: Tx<Result<Option<Playlist>>>)
    ensures !(r.out.Ok? && r.out.value.Some?) ==> r.db == db
    ensures fault.At(0) ==> r.out == Err(Error(Wrap("failed to verify band ownership", fault.driverMsg)))
    ensures !fault.At(0) && bandId !in OwnedBandIds(db, userId) ==> r == Tx(db, Ok(None))
    ensures r.out.Ok? && r.out.value.Some? <==>
              fault.Clear(2) && bandId in OwnedBandIds(db, userId) && playlistId in PlaylistsOfBand(db, bandId)
    ensures r.out == Ok(None) <==>
              !fault.At(0) && (bandId !in OwnedBandIds(db, userId) || (!fault.At(1) && playlistId !in PlaylistsOfBand(db, bandId)))
    ensures r.out.Ok? && r.out.value.Some? ==>
              var p := r.out.value.value;
              p.id == playlistId && p.bandId == bandId && p.name == req.name && p.description == req.description
              && (exists o :: o in db.playlists && o.id == playlistId && o.bandId == bandId
                              && p == o.(name := req.name, description := req.description))
              && r.db == db.(playlists := r.db.playlists)
              && |r.db.playlists| == |db.playlists|
              && forall i :: 0 <= i < |db.playlists| ==>
                   if db.playlists[i].id == playlistId && db.playlists[i].bandId == bandId
                   then r.db.playlists[i] == db.playlists[i].(name := req.name, description := req.description)
                   else r.db.playlists[i] == db.playlists[i]
  {
    ClearNext(fault, 0);
    ClearNext(fault, 1);
    match BandRepository.VerifyOwnership(db, bandId, userId, fault)
    case Err(e) => Tx(db, Err(e))
    case Ok(false) => Tx(db, Ok(None))
    case Ok(true) =>
      if fault.At(1) then Tx(db, Err(Error(Wrap("failed to update playlist", fault.driverMsg))))
      else
        match First(db.playlists, PlaylistIs(playlistId, bandId))
        case None =>
          assert playlistId !in PlaylistsOfBand(db, bandId) by {
            forall p | p in db.playlists && p.bandId == bandId ensures p.id != playlistId {
              assert !PlaylistIs(playlistId, bandId)(p);
            }
          }
          Tx(db, Ok(None))
        case Some(found) =>
          assert found.id in PlaylistsOfBand(db, bandId);
          var p := found.(name := req.name, description := req.description);
          Tx(db.(playlists := Map(db.playlists, RenamePlaylist(playlistId, bandId, req))), Ok(Some(p)))
  }

  /** `DELETE FROM band_playlists WHERE id = ... AND band_id = ...` with the
      cascade to the playlist's songs. */
  function RemovePlaylist(db: Db, playlistId: int, bandId: int): (r: Db)
    ensures forall p :: p in r.playlists <==> p in db.playlists && !(p.id == playlistId && p.bandId == bandId)
    ensures forall s :: s in r.songs <==> s in db.songs && !(s.playlistId == playlistId && playlistId in PlaylistsOfBand(db, bandId))
    ensures r == db.(playlists := r.playlists, songs := r.songs)
  {
    var gone := set p | p in db.playlists && p.id == playlistId && p.bandId == bandId :: p.id;
    assert gone == (if playlistId in PlaylistsOfBand(db, bandId) then {playlistId} else {});
    db.(playlists := Filter(db.playlists, Not(PlaylistIs(playlistId, bandId))),
        songs := Filter(db.songs, Not(SongInPlaylists(gone))))
  }

  /** DeletePlaylist. Calls: 0 the ownership check, 1 the DELETE,
      2 RowsAffected. Deleting nothing is not an error. */
  function DeletePlaylist(db: Db, playlistId: int, bandId: int, userId: int, fault: Fault): (r: Tx<Outcome>)
    ensures fault.At(0) ==> r == Tx(db, Fail(Error(Wrap("failed to verify band ownership", fault.driverMsg))))
    ensures !fault.At(0) && bandId !in OwnedBandIds(db, userId) ==> r == Tx(db, Pass)
    ensures bandId in OwnedBandIds(db, userId) ==> (r.out == Pass <==> fault.Clear(3))
    ensures fault.At(1) ==> r.db == db
    ensures bandId in OwnedBandIds(db, userId) && fault.Clear(2) ==> r.db == RemovePlaylist(db, playlistId, bandId)
  {
    ClearNext(fault, 0);
    ClearNext(fault, 1);
    ClearNext(fault, 2);
    match BandRepository.VerifyOwnership(db, bandId, userId, fault)
    case Err(e) => Tx(db, Fail(e))
    case Ok(false) => Tx(db, Pass)
    case Ok(true) =>
      if fault.At(1) then Tx(db, Fail(Error(Wrap("failed to delete playlist", fault.driverMsg))))
      else
        var db' := RemovePlaylist(db, playlistId, bandId);
        if fault.At(2) then Tx(db', Fail(Error(Wrap("failed to get rows affected", fault.driverMsg))))
        else Tx(db', Pass)
  }

  /** The song row AddSong inserts. */
  function SongRow(req: SongRequest, playlistId: int, id: int, created: int): Song {
    Song(id, playlistId, req.artist, req.title, req.notes, req.position, created)
  }

  /** AddSong. Calls: 0 the ownership check, 1 the playlist check, 2 the
      INSERT. */
  function AddSong(db: Db, playlistId: int, bandId: int, userId: int, req: SongRequest, fault: Fault): (r: Tx<Result<Option<Song>>>)
    ensures !(r.out.Ok? && r.out.value.Some?) ==> r.db == db
    ensures fault.At(0) ==> r.out == Err(Error(Wrap("failed to verify band ownership", fault.driverMsg)))
    ensures !fault.At(0) && bandId !in OwnedBandIds(db, userId) ==> r == Tx(db, Ok(None))
    ensures bandId in OwnedBandIds(db, userId) && fault.At(1) ==>
              r.out == Err(Error(Wrap("failed to verify playlist ownership", fault.driverMsg)))
    ensures r.out.Ok? && r.out.value.Some? <==>
              fault.Clear(3) && bandId in OwnedBandIds(db, userId) && playlistId in PlaylistsOfBand(db, bandId)
    ensures r.out == Ok(None) <==>
              !fault.At(0) && (bandId !in OwnedBandIds(db, userId) || (!fault.At(1) && playlistId !in PlaylistsOfBand(db, bandId)))
    ensures r.out.Ok? && r.out.value.Some? ==>
              var s := r.out.value.value;
              s == Song(db.nextSongId, playlistId, req.artist, req.title, req.notes, req.position, db.clock)
              && r.db == db.(songs := db.songs + [s], nextSongId := db.nextSongId + 1, clock := db.clock + 1)
  {
    ClearNext(fault, 0);
    ClearNext(fault, 1);
    ClearNext(fault, 2);
    match BandRepository.VerifyOwnership(db, bandId, userId, fault)
    case Err(e) => Tx(db, Err(e))
    case Ok(false) => Tx(db, Ok(None))
    case Ok(true) =>
      if fault.At(1) then Tx(db, Err(Error(Wrap("failed to verify playlist ownership", fault.driverMsg))))
      else if playlistId !in PlaylistsOfBand(db, bandId) then Tx(db, Ok(None))
      else if fault.At(2) then Tx(db, Err(Error(Wrap("failed to add song", fault.driverMsg))))
      else
        var s := SongRow(req, playlistId, db.nextSongId, db.clock);
        Tx(db.(songs := db.songs + [s], nextSongId := db.nextSongId + 1, clock := db.clock + 1), Ok(Some(s)))
  }

  /** The SET clause of UpdateSong, applied to the row matching (song id,
      playlist id). */
  function SetSong(songId: int, playlistId: int, req: SongRequest): Song -> Song {
    (s: Song) =>
      if s.id == songId && s.playlistId == playlistId
      then s.(artist := req.artist, title := req.title, notes := req.notes, position := req.position)
      else s
  }

  /** UpdateSong. Calls: 0 the ownership check, 1 the UPDATE ... RETURNING,
      whose WHERE clause also requires the playlist to belong to the band. */
  function UpdateSong(db: Db, songId: int, playlistId: int, bandId: int, userId: int, req: SongRequest, fault: Fault): (r: Tx<Result<Option<Song>>>)
    ensures !(r.out.Ok? && r.out.value.Some?) ==> r.db == db
    ensures fault.At(0) ==> r.out == Err(Error(Wrap("failed to verify band ownership", fault.driverMsg)))
    ensures !fault.At(0) && bandId !in OwnedBandIds(db, userId) ==> r == Tx(db, Ok(None))
    ensures r.out.Ok? && r.out.value.Some? <==>
              fault.Clear(2) && bandId in OwnedBandIds(db, userId) && playlistId in PlaylistsOfBand(db, bandId)
              && exists s :: s in db.songs && s.id == songId && s.playlistId == playlistId
    ensures r.out == Ok(None) <==>
              !fault.At(0)
              && (bandId !in OwnedBandIds(db, userId)
                  || (!fault.At(1)
                      && (playlistId !in PlaylistsOfBand(db, bandId)
                          || forall s :: s in db.songs ==> !(s.id == songId && s.playlistId == playlistId))))
    ensures r.out.Ok? && r.out.value.Some? ==>
              var s := r.out.value.value;
              s.id == songId && s.playlistId == playlistId && s.artist == req.artist && s.title == req.title
              && s.notes == req.notes && s.position == req.position
              && (exists o :: o in db.songs && o.id == songId && o.playlistId == playlistId
                              && s == o.(artist := req.artist, title := req.title, notes := req.notes, position := req.position))
              && r.db == db.(songs := r.db.songs)
              && |r.db.songs| == |db.songs|
              && forall i :: 0 <= i < |db.songs| ==>
                   if db.songs[i].id == songId && db.songs[i].playlistId == playlistId
                   then r.db.songs[i] == db.songs[i].(artist := req.artist, title := req.title, notes := req.notes, position := req.position)
                   else r.db.songs[i] == db.songs[i]
  {
    ClearNext(fault, 0);
    ClearNext(fault, 1);
    match BandRepository.VerifyOwnership(db, bandId, userId, fault)
    case Err(e) => Tx(db, Err(e))
    case Ok(false) => Tx(db, Ok(None))
    case Ok(true) =>
      if fault.At(1) then Tx(db, Err(Error(Wrap("failed to update song", fault.driverMsg))))
      else if playlistId !in PlaylistsOfBand(db, bandId) then Tx(db, Ok(None))
      else
        match First(db.songs, SongIs(songId, playlistId))
        case None =>
          assert forall s :: s in db.songs ==> !(s.id == songId && s.playlistId == playlistId) by {
            forall s | s in db.songs ensures !(s.id == songId && s.playlistId == playlistId) {
              assert !SongIs(songId, playlistId)(s);
            }
          }
          Tx(db, Ok(None))
        case Some(found) =>
          assert SongIs(songId, playlistId)(found);
          var s := found.(artist := req.artist, title := req.title, notes := req.notes, position := req.position);
          Tx(db.(songs := Map(db.songs, SetSong(songId, playlistId, req))), Ok(Some(s)))
  }

  /** DeleteSong. Calls: 0 the ownership check, 1 the DELETE, whose WHERE
      clause also requires the playlist to belong to the band,
      2 RowsAffected. Deleting nothing is not an error. */
  function DeleteSong(db: Db, songId: int, playlistId: int, bandId: int, userId: int, fault: Fault): (r: Tx<Outcome>)
    ensures fault.At(0) ==> r == Tx(db, Fail(Error(Wrap("failed to verify band ownership", fault.driverMsg))))
    ensures !fault.At(0) && bandId !in OwnedBandIds(db, userId) ==> r == Tx(db, Pass)
    ensures bandId in OwnedBandIds(db, userId) ==> (r.out == Pass <==> fault.Clear(3))
    ensures fault.At(1) || playlistId !in PlaylistsOfBand(db, bandId) ==> r.db == db
    ensures r.db == db.(songs := r.db.songs)
    ensures bandId in OwnedBandIds(db, userId) && fault.Clear(2) && playlistId in PlaylistsOfBand(db, bandId) ==>
              forall s :: s in r.db.songs <==> s in db.songs && !(s.id == songId && s.playlistId == playlistId)
  {
    ClearNext(fault, 0);
    ClearNext(fault, 1);
    ClearNext(fault, 2);
    match BandRepository.VerifyOwnership(db, bandId, userId, fault)
    case Err(e) => Tx(db, Fail(e))
    case Ok(false) => Tx(db, Pass)
    case Ok(true) =>
      if fault.At(1) then Tx(db, Fail(Error(Wrap("failed to delete song", fault.driverMsg))))
      else
        var db' := if playlistId in PlaylistsOfBand(db, bandId)
                   then db.(songs := Filter(db.songs, Not(SongIs(songId, playlistId))))
                   else db;
        if fault.At(2) then Tx(db', Fail(Error(Wrap("failed to get rows affected", fault.driverMsg))))
        else Tx(db', Pass)
  }

  // ---------------------------------------------------------------------
  // Properties of the playlist operations.

  /** Distinct creation stamps: an increasing table has no two songs with
      the same stamp, and neither has any part of it. */
  lemma IncreasingStampsIdentify(songs: seq<Song>, part: seq<Song>)
    requires Increasing(songs, SongStamp)
    requires forall x :: x in part ==> x in songs
    ensures StampsIdentify(part)
  {
    forall x, y | x in part && y in part && x.created == y.created ensures x == y {
      var i :| 0 <= i < |songs| && songs[i] == x;
      var j :| 0 <= j < |songs| && songs[j] == y;
      assert i == j;
    }
  }

  /** In a well-formed database the playing order is fully determined: the
      songs GetPlaylistSongs returns are the one arrangement of the
      playlist's songs sorted by position, then creation. */
  lemma PlaylistSongsOrder(db: Db, playlistId: int, bandId: int, userId: int, fault: Fault, ordered: seq<Song>)
    requires Wf(db)
    requires GetPlaylistSongs(db, playlistId, bandId, userId, fault).Ok?
    requires bandId in OwnedBandIds(db, userId) && playlistId in PlaylistsOfBand(db, bandId)
    requires Sorted(ordered) && multiset(ordered) == multiset(Filter(db.songs, SongOf(playlistId)))
    ensures GetPlaylistSongs(db, playlistId, bandId, userId, fault).value == ordered
  {
    var joined := Filter(db.songs, SongOf(playlistId));
    IncreasingStampsIdentify(db.songs, joined);
    SortSongsIsTheOrder(joined, ordered);
  }

  /** A created playlist is found by GetPlaylistByID, empty. */
  lemma CreateThenGetPlaylist(db: Db, bandId: int, userId: int, req: PlaylistRequest, fault: Fault)
    requires Wf(db)
    requires CreatePlaylist(db, bandId, userId, req, fault).out.Ok?
    requires CreatePlaylist(db, bandId, userId, req, fault).out.value.Some?
    ensures var r := CreatePlaylist(db, bandId, userId, req, fault);
            var x := r.out.value.value;
            GetPlaylistByID(r.db, x.playlist.id, bandId, userId, NoFault) == Ok(Some(x))
  {
    var r := CreatePlaylist(db, bandId, userId, req, fault);
    var x := r.out.value.value;
    var db' := r.db;
    NextPlaylistUnused(db);
    assert OwnedBandIds(db', userId) == OwnedBandIds(db, userId);
    assert PlaylistIs(x.playlist.id, bandId)(x.playlist);
    assert First(db'.playlists, PlaylistIs(x.playlist.id, bandId)) == Some(x.playlist);
    assert x.playlist.id in PlaylistsOfBand(db', bandId);
    FilterDropsAll(db.songs, SongOf(x.playlist.id));
    assert JoinSongs(db', x.playlist.id, bandId) == [];
  }

  /** An added song is listed by GetPlaylistSongs. */
  lemma AddSongThenListed(db: Db, playlistId: int, bandId: int, userId: int, req: SongRequest, fault: Fault)
    requires AddSong(db, playlistId, bandId, userId, req, fault).out.Ok?
    requires AddSong(db, playlistId, bandId, userId, req, fault).out.value.Some?
    ensures var r := AddSong(db, playlistId, bandId, userId, req, fault);
            var songs := GetPlaylistSongs(r.db, playlistId, bandId, userId, NoFault);
            songs.Ok? && r.out.value.value in songs.value
  {
    var r := AddSong(db, playlistId, bandId, userId, req, fault);
    assert OwnedBandIds(r.db, userId) == OwnedBandIds(db, userId);
    assert PlaylistsOfBand(r.db, bandId) == PlaylistsOfBand(db, bandId);
  }

  /** After a delete the playlist is gone, and so are its songs. */
  lemma DeletePlaylistThenGet(db: Db, playlistId: int, bandId: int, userId: int, fault: Fault)
    requires DeletePlaylist(db, playlistId, bandId, userId, fault).out == Pass
    ensures var db' := DeletePlaylist(db, playlistId, bandId, userId, fault).db;
            GetPlaylistByID(db', playlistId, bandId, userId, NoFault) == Ok(None)
            && (bandId in OwnedBandIds(db, userId) && playlistId in PlaylistsOfBand(db, bandId) ==>
                  forall s :: s in db'.songs ==> s.playlistId != playlistId)
  {
    var db' := DeletePlaylist(db, playlistId, bandId, userId, fault).db;
    assert OwnedBandIds(db', userId) == OwnedBandIds(db, userId);
    if bandId in OwnedBandIds(db, userId) {
      assert playlistId !in PlaylistsOfBand(db', bandId);
    }
  }

  lemma CreatePlaylistPreservesWf(db: Db, bandId: int, userId: int, req: PlaylistRequest, fault: Fault)
    requires Wf(db)
    ensures Wf(CreatePlaylist(db, bandId, userId, req, fault).db)
  {
    var r := CreatePlaylist(db, bandId, userId, req, fault);
    if r.out.Ok? && r.out.value.Some? {
      var db' := r.db;
      var p := r.out.value.value.playlist;
      assert p.bandId in BandIds(db);
      TableAppend(db.playlists, p, PlaylistKey, PlaylistStamp, db.nextPlaylistId, db.clock, db'.clock);
      assert PlaylistIds(db') == PlaylistIds(db) + {p.id};
      TableGrow(db.users, UserKey, UserStamp, db.nextUserId, db.clock, db.nextUserId, db'.clock);
      TableGrow(db.bands, BandKey, BandStamp, db.nextBandId, db.clock, db.nextBandId, db'.clock);
      TableGrow(db.members, MemberKey, MemberStamp, db.nextMemberId, db.clock, db.nextMemberId, db'.clock);
      TableGrow(db.songs, SongKey, SongStamp, db.nextSongId, db.clock, db.nextSongId, db'.clock);
    }
  }

  lemma UpdatePlaylistPreservesWf(db: Db, playlistId: int, bandId: int, userId: int, req: PlaylistRequest, fault: Fault)
    requires Wf(db)
    ensures Wf(UpdatePlaylist(db, playlistId, bandId, userId, req, fault).db)
  {
    PlaylistsMapWf(db, RenamePlaylist(playlistId, bandId, req));
  }

  lemma RemovePlaylistWf(db: Db, playlistId: int, bandId: int)
    requires Wf(db)
    ensures Wf(RemovePlaylist(db, playlistId, bandId))
  {
    var db' := RemovePlaylist(db, playlistId, bandId);
    var gone := set p | p in db.playlists && p.id == playlistId && p.bandId == bandId :: p.id;
    TableFilter(db.playlists, Not(PlaylistIs(playlistId, bandId)), PlaylistKey, PlaylistStamp, db.nextPlaylistId, db.clock);
    TableFilter(db.songs, Not(SongInPlaylists(gone)), SongKey, SongStamp, db.nextSongId, db.clock);
    forall s | s in db'.songs ensures s.playlistId in PlaylistIds(db') {
      var p :| p in db.playlists && p.id == s.playlistId;
      assert p in db'.playlists;
    }
  }

  lemma DeletePlaylistPreservesWf(db: Db, playlistId: int, bandId: int, userId: int, fault: Fault)
    requires Wf(db)
    ensures Wf(DeletePlaylist(db, playlistId, bandId, userId, fault).db)
  {
    RemovePlaylistWf(db, playlistId, bandId);
  }

  lemma AddSongPreservesWf(db: Db, playlistId: int, bandId: int, userId: int, req: SongRequest, fault: Fault)
    requires Wf(db)
    ensures Wf(AddSong(db, playlistId, bandId, userId, req, fault).db)
  {
    var r := AddSong(db, playlistId, bandId, userId, req, fault);
    if r.out.Ok? && r.out.value.Some? {
      var db' := r.db;
      var s := r.out.value.value;
      assert s.playlistId in PlaylistIds(db);
      TableAppend(db.songs, s, SongKey, SongStamp, db.nextSongId, db.clock, db'.clock);
      TableGrow(db.users, UserKey, UserStamp, db.nextUserId, db.clock, db.nextUserId, db'.clock);
      TableGrow(db.bands, BandKey, BandStamp, db.nextBandId, db.clock, db.nextBandId, db'.clock);
      TableGrow(db.members, MemberKey, MemberStamp, db.nextMemberId, db.clock, db.nextMemberId, db'.clock);
      TableGrow(db.playlists, PlaylistKey, PlaylistStamp, db.nextPlaylistId, db.clock, db.nextPlaylistId, db'.clock);
    }
  }

  lemma UpdateSongPreservesWf(db: Db, songId: int, playlistId: int, bandId: int, userId: int, req: SongRequest, fault: Fault)
    requires Wf(db)
    ensures Wf(UpdateSong(db, songId, playlistId, bandId, userId, req, fault).db)
  {
    SongsMapWf(db, SetSong(songId, playlistId, req));
  }

  lemma DeleteSongPreservesWf(db: Db, songId: int, playlistId: int, bandId: int, userId: int, fault: Fault)
    requires Wf(db)
    ensures Wf(DeleteSong(db, songId, playlistId, bandId, userId, fault).db)
  {
    TableFilter(db.songs, Not(SongIs(songId, playlistId)), SongKey, SongStamp, db.nextSongId, db.clock);
  }
}
