/** Tenant isolation across the repositories.

    Every scoped query carries the acting user's id, either directly
    (`bands.user_id`) or through the ownership check. The lemmas here show
    the consequence: whatever a user does, through any repository call and
    whatever fails along the way, every other user's bands, members,
    playlists and songs stay exactly as they were, and the database stays
    well formed. */
module Tenancy {
  import opened Wrappers
  import opened Seqs
  import opened Schema
  import UserRepository
  import BandRepository
  import PlaylistRepository

  /** Two states show tenant `v` the same rows when each of v's four
      filtered tables is the same. */
  lemma SameView(db: Db, db': Db, v: int)
    requires Filter(db'.bands, OwnedBy(v)) == Filter(db.bands, OwnedBy(v))
    requires Filter(db'.members, MemberInBands(OwnedBandIds(db, v))) == Filter(db.members, MemberInBands(OwnedBandIds(db, v)))
    requires Filter(db'.playlists, PlaylistInBands(OwnedBandIds(db, v))) == Filter(db.playlists, PlaylistInBands(OwnedBandIds(db, v)))
    requires Filter(db'.songs, SongInPlaylists(OwnedPlaylistIds(db, v))) == Filter(db.songs, SongInPlaylists(OwnedPlaylistIds(db, v)))
    ensures TenantView(db', v) == TenantView(db, v)
  {
    var owned := OwnedBandIds(db, v);
    assert OwnedBandIds(db', v) == owned by {
      forall id ensures id in OwnedBandIds(db', v) <==> id in owned {
        if id in OwnedBandIds(db', v) {
          var b :| b in db'.bands && b.userId == v && b.id == id;
          assert b in Filter(db'.bands, OwnedBy(v));
        }
        if id in owned {
          var b :| b in db.bands && b.userId == v && b.id == id;
          assert b in Filter(db.bands, OwnedBy(v));
        }
      }
    }
    assert OwnedPlaylistIds(db', v) == OwnedPlaylistIds(db, v) by {
      forall id ensures id in OwnedPlaylistIds(db', v) <==> id in OwnedPlaylistIds(db, v) {
        if id in OwnedPlaylistIds(db', v) {
          var p :| p in db'.playlists && p.bandId in owned && p.id == id;
          assert p in Filter(db'.playlists, PlaylistInBands(owned));
        }
        if id in OwnedPlaylistIds(db, v) {
          var p :| p in db.playlists && p.bandId in owned && p.id == id;
          assert p in Filter(db.playlists, PlaylistInBands(owned));
        }
      }
    }
  }

  /** Appending a row `v`'s filter rejects leaves v's part of the table. */
  lemma AppendInvisible<T(!new)>(rows: seq<T>, extra: seq<T>, q: T -> bool)
    requires forall x :: x in extra ==> !q(x)
    ensures Filter(rows + extra, q) == Filter(rows, q)
  {
    FilterAppend(rows, extra, q);
    FilterDropsAll(extra, q);
  }

  /** Removing rows `v`'s filter rejects leaves v's part of the table. */
  lemma RemoveInvisible<T(!new)>(rows: seq<T>, keep: T -> bool, q: T -> bool)
    requires forall x :: x in rows && !keep(x) ==> !q(x)
    ensures Filter(Filter(rows, keep), q) == Filter(rows, q)
  {
    FilterOfFilter(rows, keep, q);
  }

  // ---------------------------------------------------------------------
  // Users: the users table is outside every tenant view, and deleting a
  // user removes only that user's bands.

  lemma CreateUserIsolated(db: Db, req: UserRepository.CreateUserRequest, salt: string, fault: Fault, v: int)
    ensures TenantView(UserRepository.CreateUser(db, req, salt, fault).db, v) == TenantView(db, v)
  {
    var db' := UserRepository.CreateUser(db, req, salt, fault).db;
    assert db'.bands == db.bands && db'.members == db.members && db'.playlists == db.playlists && db'.songs == db.songs;
  }

  lemma UpdateUserIsolated(db: Db, u: int, req: UserRepository.UpdateUserRequest, fault: Fault, v: int)
    ensures TenantView(UserRepository.UpdateUser(db, u, req, fault).db, v) == TenantView(db, v)
  {
    var db' := UserRepository.UpdateUser(db, u, req, fault).db;
    assert db'.bands == db.bands && db'.members == db.members && db'.playlists == db.playlists && db'.songs == db.songs;
  }

  lemma UpdatePasswordIsolated(db: Db, u: int, password: string, salt: string, fault: Fault, v: int)
    ensures TenantView(UserRepository.UpdatePassword(db, u, password, salt, fault).db, v) == TenantView(db, v)
  {
    var db' := UserRepository.UpdatePassword(db, u, password, salt, fault).db;
    assert db'.bands == db.bands && db'.members == db.members && db'.playlists == db.playlists && db'.songs == db.songs;
  }

  lemma DeleteUserIsolated(db: Db, u: int, fault: Fault, v: int)
    requires Wf(db) && u != v
    ensures TenantView(UserRepository.DeleteUser(db, u, fault).db, v) == TenantView(db, v)
  {
    DeleteBandsIsolated(db, OwnedBy(u), u, v);
  }

  // ---------------------------------------------------------------------
  // Bands and members.

  lemma CreateBandIsolated(db: Db, u: int, req: BandRepository.CreateBandRequest, fault: Fault, v: int)
    requires Wf(db) && u != v
    ensures TenantView(BandRepository.CreateBand(db, u, req, fault).db, v) == TenantView(db, v)
  {
    var r := BandRepository.CreateBand(db, u, req, fault);
    if r.out.Ok? {
      var x := r.out.value;
      NextBandUnused(db);
      AppendInvisible(db.bands, [x.band], OwnedBy(v));
      assert x.band.id !in OwnedBandIds(db, v);
      AppendInvisible(db.members, x.members, MemberInBands(OwnedBandIds(db, v)));
      SameView(db, r.db, v);
    }
  }

  lemma UpdateBandIsolated(db: Db, bandId: int, u: int, req: BandRepository.UpdateBandRequest, fault: Fault, v: int)
    requires u != v
    ensures TenantView(BandRepository.UpdateBand(db, bandId, u, req, fault).db, v) == TenantView(db, v)
  {
    var r := BandRepository.UpdateBand(db, bandId, u, req, fault);
    if r.out.Ok? && r.out.value.Some? {
      var f := BandRepository.RenameBand(bandId, u, req);
      assert r.db == db.(bands := Map(db.bands, f));
      FilterOfMap(db.bands, f, OwnedBy(v));
      SameView(db, r.db, v);
    }
  }

  lemma DeleteBandIsolated(db: Db, bandId: int, u: int, fault: Fault, v: int)
    requires Wf(db) && u != v
    ensures TenantView(BandRepository.DeleteBand(db, bandId, u, fault).db, v) == TenantView(db, v)
  {
    DeleteBandsIsolated(db, BandIs(bandId, u), u, v);
  }

  lemma AddBandMemberIsolated(db: Db, bandId: int, u: int, req: BandRepository.MemberRequest, fault: Fault, v: int)
    requires Wf(db) && u != v
    ensures TenantView(BandRepository.AddBandMember(db, bandId, u, req, fault).db, v) == TenantView(db, v)
  {
    var r := BandRepository.AddBandMember(db, bandId, u, req, fault);
    if r.out.Ok? && r.out.value.Some? {
      OwnedBandsDisjoint(db, u, v);
      AppendInvisible(db.members, [r.out.value.value], MemberInBands(OwnedBandIds(db, v)));
      SameView(db, r.db, v);
    }
  }

  lemma UpdateBandMemberIsolated(db: Db, memberId: int, bandId: int, u: int, req: BandRepository.MemberRequest, fault: Fault, v: int)
    requires Wf(db) && u != v
    ensures TenantView(BandRepository.UpdateBandMember(db, memberId, bandId, u, req, fault).db, v) == TenantView(db, v)
  {
    var r := BandRepository.UpdateBandMember(db, memberId, bandId, u, req, fault);
    if r.out.Ok? && r.out.value.Some? {
      var f := BandRepository.SetMember(memberId, bandId, req);
      assert r.db == db.(members := Map(db.members, f));
      OwnedBandsDisjoint(db, u, v);
      FilterOfMap(db.members, f, MemberInBands(OwnedBandIds(db, v)));
      SameView(db, r.db, v);
    }
  }

  lemma DeleteBandMemberIsolated(db: Db, memberId: int, bandId: int, u: int, fault: Fault, v: int)
    requires Wf(db) && u != v
    ensures TenantView(BandRepository.DeleteBandMember(db, memberId, bandId, u, fault).db, v) == TenantView(db, v)
  {
    var r := BandRepository.DeleteBandMember(db, memberId, bandId, u, fault);
    if r.db != db {
      OwnedBandsDisjoint(db, u, v);
      RemoveInvisible(db.members, Not(MemberIs(memberId, bandId)), MemberInBands(OwnedBandIds(db, v)));
      SameView(db, r.db, v);
    }
  }

  // ---------------------------------------------------------------------
  // Playlists and songs.

  /** A playlist of a band `u` owns is not one of `v`'s. */
  lemma OwnedPlaylistNotTheirs(db: Db, playlistId: int, bandId: int, u: int, v: int)
    requires Wf(db) && u != v
    requires bandId in OwnedBandIds(db, u) && playlistId in PlaylistRepository.PlaylistsOfBand(db, bandId)
    ensures playlistId !in OwnedPlaylistIds(db, v)
  {
    OwnedPlaylistsDisjoint(db, u, v);
    var p :| p in db.playlists && p.bandId == bandId && p.id == playlistId;
    assert playlistId in OwnedPlaylistIds(db, u);
  }

  lemma CreatePlaylistIsolated(db: Db, bandId: int, u: int, req: PlaylistRepository.PlaylistRequest, fault: Fault, v: int)
    requires Wf(db) && u != v
    ensures TenantView(PlaylistRepository.CreatePlaylist(db, bandId, u, req, fault).db, v) == TenantView(db, v)
  {
    var r := PlaylistRepository.CreatePlaylist(db, bandId, u, req, fault);
    if r.out.Ok? && r.out.value.Some? {
      OwnedBandsDisjoint(db, u, v);
      AppendInvisible(db.playlists, [r.out.value.value.playlist], PlaylistInBands(OwnedBandIds(db, v)));
      SameView(db, r.db, v);
    }
  }

  lemma UpdatePlaylistIsolated(db: Db, playlistId: int, bandId: int, u: int, req: PlaylistRepository.PlaylistRequest, fault: Fault, v: int)
    requires Wf(db) && u != v
    ensures TenantView(PlaylistRepository.UpdatePlaylist(db, playlistId, bandId, u, req, fault).db, v) == TenantView(db, v)
  {
    var r := PlaylistRepository.UpdatePlaylist(db, playlistId, bandId, u, req, fault);
    if r.out.Ok? && r.out.value.Some? {
      var f := PlaylistRepository.RenamePlaylist(playlistId, bandId, req);
      assert r.db == db.(playlists := Map(db.playlists, f));
      OwnedBandsDisjoint(db, u, v);
      FilterOfMap(db.playlists, f, PlaylistInBands(OwnedBandIds(db, v)));
      SameView(db, r.db, v);
    }
  }

  lemma RemovePlaylistIsolated(db: Db, playlistId: int, bandId: int, u: int, v: int)
    requires Wf(db) && u != v && bandId in OwnedBandIds(db, u)
    ensures TenantView(PlaylistRepository.RemovePlaylist(db, playlistId, bandId), v) == TenantView(db, v)
  {
    var db' := PlaylistRepository.RemovePlaylist(db, playlistId, bandId);
    var gone := set p | p in db.playlists && p.id == playlistId && p.bandId == bandId :: p.id;
    OwnedBandsDisjoint(db, u, v);
    RemoveInvisible(db.playlists, Not(PlaylistIs(playlistId, bandId)), PlaylistInBands(OwnedBandIds(db, v)));
    if playlistId in PlaylistRepository.PlaylistsOfBand(db, bandId) {
      OwnedPlaylistNotTheirs(db, playlistId, bandId, u, v);
    }
    RemoveInvisible(db.songs, Not(SongInPlaylists(gone)), SongInPlaylists(OwnedPlaylistIds(db, v)));
    SameView(db, db', v);
  }

  lemma DeletePlaylistIsolated(db: Db, playlistId: int, bandId: int, u: int, fault: Fault, v: int)
    requires Wf(db) && u != v
    ensures TenantView(PlaylistRepository.DeletePlaylist(db, playlistId, bandId, u, fault).db, v) == TenantView(db, v)
  {
    var db' := PlaylistRepository.DeletePlaylist(db, playlistId, bandId, u, fault).db;
    if fault.At(0) || fault.At(1) || bandId !in OwnedBandIds(db, u) {
      assert db' == db;
    } else {
      assert fault.Clear(2) by { ClearNext(fault, 0); ClearNext(fault, 1); }
      assert db' == PlaylistRepository.RemovePlaylist(db, playlistId, bandId);
      RemovePlaylistIsolated(db, playlistId, bandId, u, v);
    }
  }

  lemma AddSongIsolated(db: Db, playlistId: int, bandId: int, u: int, req: PlaylistRepository.SongRequest, fault: Fault, v: int)
    requires Wf(db) && u != v
    ensures TenantView(PlaylistRepository.AddSong(db, playlistId, bandId, u, req, fault).db, v) == TenantView(db, v)
  {
    var r := PlaylistRepository.AddSong(db, playlistId, bandId, u, req, fault);
    if r.out.Ok? && r.out.value.Some? {
      OwnedPlaylistNotTheirs(db, playlistId, bandId, u, v);
      AppendInvisible(db.songs, [r.out.value.value], SongInPlaylists(OwnedPlaylistIds(db, v)));
      SameView(db, r.db, v);
    }
  }

  lemma UpdateSongIsolated(db: Db, songId: int, playlistId: int, bandId: int, u: int, req: PlaylistRepository.SongRequest, fault: Fault, v: int)
    requires Wf(db) && u != v
    ensures TenantView(PlaylistRepository.UpdateSong(db, songId, playlistId, bandId, u, req, fault).db, v) == TenantView(db, v)
  {
    var r := PlaylistRepository.UpdateSong(db, songId, playlistId, bandId, u, req, fault);
    if r.out.Ok? && r.out.value.Some? {
      var f := PlaylistRepository.SetSong(songId, playlistId, req);
      assert r.db == db.(songs := Map(db.songs, f));
      OwnedPlaylistNotTheirs(db, playlistId, bandId, u, v);
      FilterOfMap(db.songs, f, SongInPlaylists(OwnedPlaylistIds(db, v)));
      SameView(db, r.db, v);
    }
  }

  lemma DeleteSongIsolated(db: Db, songId: int, playlistId: int, bandId: int, u: int, fault: Fault, v: int)
    requires Wf(db) && u != v
    ensures TenantView(PlaylistRepository.DeleteSong(db, songId, playlistId, bandId, u, fault).db, v) == TenantView(db, v)
  {
    var r := PlaylistRepository.DeleteSong(db, songId, playlistId, bandId, u, fault);
    if r.db != db {
      assert bandId in OwnedBandIds(db, u) && playlistId in PlaylistRepository.PlaylistsOfBand(db, bandId);
      assert r.db.songs == Filter(db.songs, Not(SongIs(songId, playlistId)));
      OwnedPlaylistNotTheirs(db, playlistId, bandId, u, v);
      RemoveInvisible(db.songs, Not(SongIs(songId, playlistId)), SongInPlaylists(OwnedPlaylistIds(db, v)));
      SameView(db, r.db, v);
    }
  }

  // ---------------------------------------------------------------------
  // Any sequence of calls by one user.

  /** A state-changing call of the user repository, for the acting user
      (account creation acts for nobody in particular). */
  datatype UserCall =
    | CreateUser(createUser: UserRepository.CreateUserRequest, salt: string)
    | UpdateUser(updateUser: UserRepository.UpdateUserRequest)
    | UpdatePassword(password: string, passwordSalt: string)
    | DeleteUser

  /** A state-changing call of the band repository. */
  datatype BandCall =
    | CreateBand(createBand: BandRepository.CreateBandRequest)
    | UpdateBand(bandId: int, updateBand: BandRepository.UpdateBandRequest)
    | DeleteBand(bandId: int)
    | AddBandMember(bandId: int, member: BandRepository.MemberRequest)
    | UpdateBandMember(memberId: int, bandId: int, member: BandRepository.MemberRequest)
    | DeleteBandMember(memberId: int, bandId: int)

  /** A state-changing call of the band playlist repository. */
  datatype PlaylistCall =
    | CreatePlaylist(bandId: int, playlist: PlaylistRepository.PlaylistRequest)
    | UpdatePlaylist(playlistId: int, bandId: int, playlist: PlaylistRepository.PlaylistRequest)
    | DeletePlaylist(playlistId: int, bandId: int)
    | AddSong(playlistId: int, bandId: int, song: PlaylistRepository.SongRequest)
    | UpdateSong(songId: int, playlistId: int, bandId: int, song: PlaylistRepository.SongRequest)
    | DeleteSong(songId: int, playlistId: int, bandId: int)

  datatype Request = Users(user: UserCall) | Bands(band: BandCall) | Playlists(playlist: PlaylistCall)

  /** A request together with the way its external calls fail. */
  datatype Call = Call(req: Request, fault: Fault)

  function ApplyUser(db: Db, u: int, c: UserCall, f: Fault): Db {
    match c
    case CreateUser(req, salt) => UserRepository.CreateUser(db, req, salt, f).db
    case UpdateUser(req) => UserRepository.UpdateUser(db, u, req, f).db
    case UpdatePassword(password, salt) => UserRepository.UpdatePassword(db, u, password, salt, f).db
    case DeleteUser => UserRepository.DeleteUser(db, u, f).db
  }

  function ApplyBand(db: Db, u: int, c: BandCall, f: Fault): Db {
    match c
    case CreateBand(req) => BandRepository.CreateBand(db, u, req, f).db
    case UpdateBand(bandId, req) => BandRepository.UpdateBand(db, bandId, u, req, f).db
    case DeleteBand(bandId) => BandRepository.DeleteBand(db, bandId, u, f).db
    case AddBandMember(bandId, req) => BandRepository.AddBandMember(db, bandId, u, req, f).db
    case UpdateBandMember(memberId, bandId, req) => BandRepository.UpdateBandMember(db, memberId, bandId, u, req, f).db
    case DeleteBandMember(memberId, bandId) => BandRepository.DeleteBandMember(db, memberId, bandId, u, f).db
  }

  function ApplyPlaylist(db: Db, u: int, c: PlaylistCall, f: Fault): Db {
    match c
    case CreatePlaylist(bandId, req) => PlaylistRepository.CreatePlaylist(db, bandId, u, req, f).db
    case UpdatePlaylist(playlistId, bandId, req) => PlaylistRepository.UpdatePlaylist(db, playlistId, bandId, u, req, f).db
    case DeletePlaylist(playlistId, bandId) => PlaylistRepository.DeletePlaylist(db, playlistId, bandId, u, f).db
    case AddSong(playlistId, bandId, req) => PlaylistRepository.AddSong(db, playlistId, bandId, u, req, f).db
    case UpdateSong(songId, playlistId, bandId, req) => PlaylistRepository.UpdateSong(db, songId, playlistId, bandId, u, req, f).db
    case DeleteSong(songId, playlistId, bandId) => PlaylistRepository.DeleteSong(db, songId, playlistId, bandId, u, f).db
  }

  /** The state after user `u`'s call, whatever it returned. */
  function Apply(db: Db, u: int, c: Call): Db {
    match c.req
    case Users(x) => ApplyUser(db, u, x, c.fault)
    case Bands(x) => ApplyBand(db, u, x, c.fault)
    case Playlists(x) => ApplyPlaylist(db, u, x, c.fault)
  }

  lemma ApplyUserWf(db: Db, u: int, c: UserCall, f: Fault)
    requires Wf(db)
    ensures Wf(ApplyUser(db, u, c, f))
  {
    match c
    case CreateUser(req, salt) => UserRepository.CreateUserPreservesWf(db, req, salt, f);
    case UpdateUser(req) => UserRepository.UpdateUserPreservesWf(db, u, req, f);
    case UpdatePassword(password, salt) => UserRepository.UpdatePasswordPreservesWf(db, u, password, salt, f);
    case DeleteUser => UserRepository.DeleteUserPreservesWf(db, u, f);
  }

  lemma ApplyBandWf(db: Db, u: int, c: BandCall, f: Fault)
    requires Wf(db)
    ensures Wf(ApplyBand(db, u, c, f))
  {
    match c
    case CreateBand(req) => BandRepository.CreateBandPreservesWf(db, u, req, f);
    case UpdateBand(bandId, req) => BandRepository.UpdateBandPreservesWf(db, bandId, u, req, f);
    case DeleteBand(bandId) => BandRepository.DeleteBandPreservesWf(db, bandId, u, f);
    case AddBandMember(bandId, req) => BandRepository.AddBandMemberPreservesWf(db, bandId, u, req, f);
    case UpdateBandMember(memberId, bandId, req) => BandRepository.UpdateBandMemberPreservesWf(db, memberId, bandId, u, req, f);
    case DeleteBandMember(memberId, bandId) => BandRepository.DeleteBandMemberPreservesWf(db, memberId, bandId, u, f);
  }

  lemma ApplyPlaylistWf(db: Db, u: int, c: PlaylistCall, f: Fault)
    requires Wf(db)
    ensures Wf(ApplyPlaylist(db, u, c, f))
  {
    match c
    case CreatePlaylist(bandId, req) => PlaylistRepository.CreatePlaylistPreservesWf(db, bandId, u, req, f);
    case UpdatePlaylist(playlistId, bandId, req) => PlaylistRepository.UpdatePlaylistPreservesWf(db, playlistId, bandId, u, req, f);
    case DeletePlaylist(playlistId, bandId) => PlaylistRepository.DeletePlaylistPreservesWf(db, playlistId, bandId, u, f);
    case AddSong(playlistId, bandId, req) => PlaylistRepository.AddSongPreservesWf(db, playlistId, bandId, u, req, f);
    case UpdateSong(songId, playlistId, bandId, req) => PlaylistRepository.UpdateSongPreservesWf(db, songId, playlistId, bandId, u, req, f);
    case DeleteSong(songId, playlistId, bandId) => PlaylistRepository.DeleteSongPreservesWf(db, songId, playlistId, bandId, u, f);
  }

  /** Every call keeps the database's constraints. */
  lemma ApplyPreservesWf(db: Db, u: int, c: Call)
    requires Wf(db)
    ensures Wf(Apply(db, u, c))
  {
    match c.req
    case Users(x) => ApplyUserWf(db, u, x, c.fault);
    case Bands(x) => ApplyBandWf(db, u, x, c.fault);
    case Playlists(x) => ApplyPlaylistWf(db, u, x, c.fault);
  }

  lemma ApplyUserIsolated(db: Db, u: int, v: int, c: UserCall, f: Fault)
    requires Wf(db) && u != v
    ensures TenantView(ApplyUser(db, u, c, f), v) == TenantView(db, v)
  {
    match c
    case CreateUser(req, salt) => CreateUserIsolated(db, req, salt, f, v);
    case UpdateUser(req) => UpdateUserIsolated(db, u, req, f, v);
    case UpdatePassword(password, salt) => UpdatePasswordIsolated(db, u, password, salt, f, v);
    case DeleteUser => DeleteUserIsolated(db, u, f, v);
  }

  lemma ApplyBandIsolated(db: Db, u: int, v: int, c: BandCall, f: Fault)
    requires Wf(db) && u != v
    ensures TenantView(ApplyBand(db, u, c, f), v) == TenantView(db, v)
  {
    match c
    case CreateBand(req) => CreateBandIsolated(db, u, req, f, v);
    case UpdateBand(bandId, req) => UpdateBandIsolated(db, bandId, u, req, f, v);
    case DeleteBand(bandId) => DeleteBandIsolated(db, bandId, u, f, v);
    case AddBandMember(bandId, req) => AddBandMemberIsolated(db, bandId, u, req, f, v);
    case UpdateBandMember(memberId, bandId, req) => UpdateBandMemberIsolated(db, memberId, bandId, u, req, f, v);
    case DeleteBandMember(memberId, bandId) => DeleteBandMemberIsolated(db, memberId, bandId, u, f, v);
  }

  lemma ApplyPlaylistIsolated(db: Db, u: int, v: int, c: PlaylistCall, f: Fault)
    requires Wf(db) && u != v
    ensures TenantView(ApplyPlaylist(db, u, c, f), v) == TenantView(db, v)
  {
    match c
    case CreatePlaylist(bandId, req) => CreatePlaylistIsolated(db, bandId, u, req, f, v);
    case UpdatePlaylist(playlistId, bandId, req) => UpdatePlaylistIsolated(db, playlistId, bandId, u, req, f, v);
    case DeletePlaylist(playlistId, bandId) => DeletePlaylistIsolated(db, playlistId, bandId, u, f, v);
    case AddSong(playlistId, bandId, req) => AddSongIsolated(db, playlistId, bandId, u, req, f, v);
    case UpdateSong(songId, playlistId, bandId, req) => UpdateSongIsolated(db, songId, playlistId, bandId, u, req, f, v);
    case DeleteSong(songId, playlistId, bandId) => DeleteSongIsolated(db, songId, playlistId, bandId, u, f, v);
  }

  /** No call of `u` changes what another user `v` owns. */
  lemma ApplyIsolated(db: Db, u: int, v: int, c: Call)
    requires Wf(db) && u != v
    ensures TenantView(Apply(db, u, c), v) == TenantView(db, v)
  {
    var db' := Apply(db, u, c);
    match c.req
    case Users(x) =>
      assert db' == ApplyUser(db, u, x, c.fault);
      ApplyUserIsolated(db, u, v, x, c.fault);
    case Bands(x) =>
      assert db' == ApplyBand(db, u, x, c.fault);
      ApplyBandIsolated(db, u, v, x, c.fault);
    case Playlists(x) =>
      assert db' == ApplyPlaylist(db, u, x, c.fault);
      ApplyPlaylistIsolated(db, u, v, x, c.fault);
  }

  /** The state after `u`'s calls, in order. */
  function Run(db: Db, u: int, calls: seq<Call>): Db
    decreases |calls|
  {
    if calls == [] then db else Run(Apply(db, u, calls[0]), u, calls[1..])
  }

  /** Starting from a well-formed database, any session of one user keeps
      the constraints and leaves every other user's data as it was. */
  lemma {:induction false} RunIsolated(db: Db, u: int, v: int, calls: seq<Call>)
    requires Wf(db) && u != v
    ensures Wf(Run(db, u, calls))
    ensures TenantView(Run(db, u, calls), v) == TenantView(db, v)
    decreases |calls|
  {
    if calls != [] {
      ApplyPreservesWf(db, u, calls[0]);
      ApplyIsolated(db, u, v, calls[0]);
      RunIsolated(Apply(db, u, calls[0]), u, v, calls[1..]);
    }
  }
}
