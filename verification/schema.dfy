/** The PostgreSQL state behind the three repositories.

    Each table is a sequence of rows in insertion order. `created` is the
    value of a global insertion counter `clock` at the time of the insert, a
    stand-in for `created_at`, so insertion order is `created_at` order and
    `ORDER BY created_at ASC` is the stored order. Ids come from one counter
    per table, as SERIAL columns do.

    The schema's constraints are assumed rather than read from migrations:
    primary keys, a unique `users.email`, foreign keys band to user, member
    to band, playlist to band and song to playlist, each with ON DELETE
    CASCADE. */
module Schema {
  import opened Wrappers
  import opened Seqs
  import Bcrypt

  datatype User = User(
    id: int, firstName: string, lastName: string, email: string,
    passwordHash: Bcrypt.Hash, created: int)

  datatype Band = Band(id: int, name: string, description: string, userId: int, created: int)

  datatype Member = Member(
    id: int, bandId: int, name: string, role: string, email: string, phone: string, created: int)

  datatype Playlist = Playlist(id: int, bandId: int, name: string, description: string, created: int)

  datatype Song = Song(
    id: int, playlistId: int, artist: string, title: string, notes: string,
    position: int, created: int)

  datatype Db = Db(
    users: seq<User>,
    bands: seq<Band>,
    members: seq<Member>,
    playlists: seq<Playlist>,
    songs: seq<Song>,
    nextUserId: int,
    nextBandId: int,
    nextMemberId: int,
    nextPlaylistId: int,
    nextSongId: int,
    clock: int)

  /** A freshly migrated database: empty tables, sequences starting at 1. */
  const Empty: Db := Db([], [], [], [], [], 1, 1, 1, 1, 1, 0)

  /** A repository call's effect: the state afterwards and the Go result. */
  datatype Tx<T> = Tx(db: Db, out: T)

  // Column accessors, passed to the generic sequence predicates.
  function UserKey(u: User): int { u.id }
  function UserEmail(u: User): string { u.email }
  function UserStamp(u: User): int { u.created }
  function BandKey(b: Band): int { b.id }
  function BandStamp(b: Band): int { b.created }
  function MemberKey(m: Member): int { m.id }
  function MemberStamp(m: Member): int { m.created }
  function PlaylistKey(p: Playlist): int { p.id }
  function PlaylistStamp(p: Playlist): int { p.created }
  function SongKey(s: Song): int { s.id }
  function SongStamp(s: Song): int { s.created }

  // WHERE clauses.
  function UserIs(id: int): User -> bool { (u: User) => u.id == id }
  function EmailIs(email: string): User -> bool { (u: User) => u.email == email }
  function OwnedBy(userId: int): Band -> bool { (b: Band) => b.userId == userId }
  function BandIs(id: int, userId: int): Band -> bool { (b: Band) => b.id == id && b.userId == userId }
  function MemberOf(bandId: int): Member -> bool { (m: Member) => m.bandId == bandId }
  function MemberIs(id: int, bandId: int): Member -> bool { (m: Member) => m.id == id && m.bandId == bandId }
  function MemberInBands(ids: set<int>): Member -> bool { (m: Member) => m.bandId in ids }
  function PlaylistOf(bandId: int): Playlist -> bool { (p: Playlist) => p.bandId == bandId }
  function PlaylistIs(id: int, bandId: int): Playlist -> bool { (p: Playlist) => p.id == id && p.bandId == bandId }
  function PlaylistInBands(ids: set<int>): Playlist -> bool { (p: Playlist) => p.bandId in ids }
  function SongOf(playlistId: int): Song -> bool { (s: Song) => s.playlistId == playlistId }
  function SongIs(id: int, playlistId: int): Song -> bool { (s: Song) => s.id == id && s.playlistId == playlistId }
  function SongInPlaylists(ids: set<int>): Song -> bool { (s: Song) => s.playlistId in ids }

  function UserIds(db: Db): set<int> { set u | u in db.users :: u.id }
  function BandIds(db: Db): set<int> { set b | b in db.bands :: b.id }
  function PlaylistIds(db: Db): set<int> { set p | p in db.playlists :: p.id }

  /** Ids of the bands `userId` owns. */
  function OwnedBandIds(db: Db, userId: int): set<int> {
    set b | b in db.bands && b.userId == userId :: b.id
  }

  /** Ids of the playlists of the bands `userId` owns. */
  function OwnedPlaylistIds(db: Db, userId: int): set<int> {
    set p | p in db.playlists && p.bandId in OwnedBandIds(db, userId) :: p.id
  }

  /** The `SELECT id FROM bands WHERE id = $1 AND user_id = $2` check that
      every scoped band, member, playlist and song operation starts with. */
  predicate Owns(db: Db, userId: int, bandId: int) {
    First(db.bands, BandIs(bandId, userId)).Some?
  }

  lemma OwnsIff(db: Db, userId: int, bandId: int)
    ensures Owns(db, userId, bandId) <==> bandId in OwnedBandIds(db, userId)
  {
    if bandId in OwnedBandIds(db, userId) {
      var b :| b in db.bands && b.userId == userId && b.id == bandId;
      assert BandIs(bandId, userId)(b);
    }
  }

  /** Primary key, id sequence and insertion order of one table. */
  ghost predicate TableWf<T(!new)>(rows: seq<T>, key: T -> int, stamp: T -> int, nextId: int, clock: int) {
    KeyUnique(rows, key) && KeysBelow(rows, key, nextId)
    && Increasing(rows, stamp) && KeysBelow(rows, stamp, clock)
  }

  ghost predicate UsersWf(db: Db) {
    TableWf(db.users, UserKey, UserStamp, db.nextUserId, db.clock)
    && KeyUnique(db.users, UserEmail)
  }

  ghost predicate BandsWf(db: Db) {
    TableWf(db.bands, BandKey, BandStamp, db.nextBandId, db.clock)
    && forall b :: b in db.bands ==> b.userId in UserIds(db)
  }

  ghost predicate MembersWf(db: Db) {
    TableWf(db.members, MemberKey, MemberStamp, db.nextMemberId, db.clock)
    && forall m :: m in db.members ==> m.bandId in BandIds(db)
  }

  ghost predicate PlaylistsWf(db: Db) {
    TableWf(db.playlists, PlaylistKey, PlaylistStamp, db.nextPlaylistId, db.clock)
    && forall p :: p in db.playlists ==> p.bandId in BandIds(db)
  }

  ghost predicate SongsWf(db: Db) {
    TableWf(db.songs, SongKey, SongStamp, db.nextSongId, db.clock)
    && forall s :: s in db.songs ==> s.playlistId in PlaylistIds(db)
  }

  /** The constraints the database maintains. */
  ghost predicate Wf(db: Db) {
    UsersWf(db) && BandsWf(db) && MembersWf(db) && PlaylistsWf(db) && SongsWf(db)
  }

  lemma EmptyWf()
    ensures Wf(Empty)
  {
  }

  /** What one tenant can reach: the bands they own, those bands' members
      and playlists, and those playlists' songs. */
  datatype View = View(bands: seq<Band>, members: seq<Member>, playlists: seq<Playlist>, songs: seq<Song>)

  function TenantView(db: Db, userId: int): (v: View)
    ensures forall b :: b in v.bands <==> b in db.bands && b.userId == userId
  {
    var owned := OwnedBandIds(db, userId);
    View(
      Filter(db.bands, OwnedBy(userId)),
      Filter(db.members, MemberInBands(owned)),
      Filter(db.playlists, PlaylistInBands(owned)),
      Filter(db.songs, SongInPlaylists(OwnedPlaylistIds(db, userId))))
  }

  /** The ids of the bands `doomed` selects. */
  function DoomedBandIds(db: Db, doomed: Band -> bool): set<int> {
    set b | b in db.bands && doomed(b) :: b.id
  }

  /** The ids of the playlists of the bands `doomed` selects. */
  function DoomedPlaylistIds(db: Db, doomed: Band -> bool): set<int> {
    set p | p in db.playlists && p.bandId in DoomedBandIds(db, doomed) :: p.id
  }

  /** `DELETE FROM bands WHERE ...` with the cascades: the selected bands go,
      and with them their members, their playlists and those playlists'
      songs. */
  function DeleteBands(db: Db, doomed: Band -> bool): (r: Db)
    ensures forall b :: b in r.bands <==> b in db.bands && !doomed(b)
    ensures forall m :: m in r.members <==> m in db.members && m.bandId !in DoomedBandIds(db, doomed)
    ensures forall p :: p in r.playlists <==> p in db.playlists && p.bandId !in DoomedBandIds(db, doomed)
    ensures forall s :: s in r.songs <==> s in db.songs && s.playlistId !in DoomedPlaylistIds(db, doomed)
    ensures r.users == db.users
  {
    var gone := DoomedBandIds(db, doomed);
    db.(bands := Filter(db.bands, Not(doomed)),
        members := Filter(db.members, Not(MemberInBands(gone))),
        playlists := Filter(db.playlists, Not(PlaylistInBands(gone))),
        songs := Filter(db.songs, Not(SongInPlaylists(DoomedPlaylistIds(db, doomed)))))
  }

  // ---------------------------------------------------------------------
  // Table-level facts used by every preservation proof.

  lemma TableAppend<T(!new)>(rows: seq<T>, x: T, key: T -> int, stamp: T -> int, nextId: int, clock: int, clock': int)
    requires TableWf(rows, key, stamp, nextId, clock)
    requires key(x) == nextId && stamp(x) == clock && clock < clock'
    ensures TableWf(rows + [x], key, stamp, nextId + 1, clock')
  {
    var r := rows + [x];
    forall i, j | 0 <= i < j < |r| ensures stamp(r[i]) < stamp(r[j]) {
      if j == |rows| {
        assert r[i] in rows;
      }
    }
  }

  lemma TableFilter<T(!new)>(rows: seq<T>, p: T -> bool, key: T -> int, stamp: T -> int, nextId: int, clock: int)
    requires TableWf(rows, key, stamp, nextId, clock)
    ensures TableWf(Filter(rows, p), key, stamp, nextId, clock)
  {
    FilterIncreasing(rows, p, stamp);
  }

  lemma TableMap<T(!new)>(rows: seq<T>, f: T -> T, key: T -> int, stamp: T -> int, nextId: int, clock: int)
    requires TableWf(rows, key, stamp, nextId, clock)
    requires forall x :: x in rows ==> key(f(x)) == key(x) && stamp(f(x)) == stamp(x)
    ensures TableWf(Map(rows, f), key, stamp, nextId, clock)
  {
    MapMembers(rows, f);
    MapIncreasing(rows, f, stamp);
  }

  lemma TableGrow<T(!new)>(rows: seq<T>, key: T -> int, stamp: T -> int, nextId: int, clock: int, nextId': int, clock': int)
    requires TableWf(rows, key, stamp, nextId, clock)
    requires nextId <= nextId' && clock <= clock'
    ensures TableWf(rows, key, stamp, nextId', clock')
  {
  }

  /** The next id of a well-formed table is not in use. */
  lemma FreshKey<T(!new)>(rows: seq<T>, key: T -> int, stamp: T -> int, nextId: int, clock: int)
    requires TableWf(rows, key, stamp, nextId, clock)
    ensures forall x :: x in rows ==> key(x) != nextId
  {
  }

  /** Band ids identify their owner. */
  lemma OwnedBandsDisjoint(db: Db, u: int, v: int)
    requires BandsWf(db) && u != v
    ensures OwnedBandIds(db, u) !! OwnedBandIds(db, v)
  {
    forall id | id in OwnedBandIds(db, u) ensures id !in OwnedBandIds(db, v) {
      var b :| b in db.bands && b.userId == u && b.id == id;
      assert forall c :: c in db.bands && BandKey(c) == BandKey(b) ==> c == b;
    }
  }

  /** Playlist ids identify their band, so owned playlists of different users
      are disjoint. */
  lemma OwnedPlaylistsDisjoint(db: Db, u: int, v: int)
    requires BandsWf(db) && PlaylistsWf(db) && u != v
    ensures OwnedPlaylistIds(db, u) !! OwnedPlaylistIds(db, v)
  {
    OwnedBandsDisjoint(db, u, v);
    forall id | id in OwnedPlaylistIds(db, u) ensures id !in OwnedPlaylistIds(db, v) {
      var p :| p in db.playlists && p.bandId in OwnedBandIds(db, u) && p.id == id;
      assert forall q :: q in db.playlists && PlaylistKey(q) == PlaylistKey(p) ==> q == p;
    }
  }

  /** No row refers to the id the bands table hands out next. */
  lemma NextBandUnused(db: Db)
    requires BandsWf(db) && MembersWf(db) && PlaylistsWf(db)
    ensures forall b :: b in db.bands ==> b.id != db.nextBandId
    ensures forall m :: m in db.members ==> m.bandId != db.nextBandId
    ensures forall p :: p in db.playlists ==> p.bandId != db.nextBandId
  {
  }

  /** No row refers to the id the playlists table hands out next. */
  lemma NextPlaylistUnused(db: Db)
    requires PlaylistsWf(db) && SongsWf(db)
    ensures forall p :: p in db.playlists ==> p.id != db.nextPlaylistId
    ensures forall s :: s in db.songs ==> s.playlistId != db.nextPlaylistId
  {
  }

  /** Rewriting band rows without touching their id, owner or stamp keeps
      the database well formed. */
  lemma BandsMapWf(db: Db, f: Band -> Band)
    requires Wf(db)
    requires forall b :: b in db.bands ==> f(b).id == b.id && f(b).userId == b.userId && f(b).created == b.created
    ensures Wf(db.(bands := Map(db.bands, f)))
  {
    var db' := db.(bands := Map(db.bands, f));
    TableMap(db.bands, f, BandKey, BandStamp, db.nextBandId, db.clock);
    MapMembers(db.bands, f);
    assert BandIds(db') == BandIds(db) by {
      forall id | id in BandIds(db) ensures id in BandIds(db') {
        var b :| b in db.bands && b.id == id;
        assert f(b) in db'.bands;
      }
    }
  }

  /** Rewriting member rows without touching their id, band or stamp keeps
      the database well formed. */
  lemma MembersMapWf(db: Db, f: Member -> Member)
    requires Wf(db)
    requires forall m :: m in db.members ==> f(m).id == m.id && f(m).bandId == m.bandId && f(m).created == m.created
    ensures Wf(db.(members := Map(db.members, f)))
  {
    TableMap(db.members, f, MemberKey, MemberStamp, db.nextMemberId, db.clock);
    MapMembers(db.members, f);
  }

  /** Rewriting playlist rows without touching their id, band or stamp keeps
      the database well formed. */
  lemma PlaylistsMapWf(db: Db, f: Playlist -> Playlist)
    requires Wf(db)
    requires forall p :: p in db.playlists ==> f(p).id == p.id && f(p).bandId == p.bandId && f(p).created == p.created
    ensures Wf(db.(playlists := Map(db.playlists, f)))
  {
    var db' := db.(playlists := Map(db.playlists, f));
    TableMap(db.playlists, f, PlaylistKey, PlaylistStamp, db.nextPlaylistId, db.clock);
    MapMembers(db.playlists, f);
    assert PlaylistIds(db') == PlaylistIds(db) by {
      forall id | id in PlaylistIds(db) ensures id in PlaylistIds(db') {
        var p :| p in db.playlists && p.id == id;
        assert f(p) in db'.playlists;
      }
    }
  }

  /** Rewriting song rows without touching their id, playlist or stamp keeps
      the database well formed. */
  lemma SongsMapWf(db: Db, f: Song -> Song)
    requires Wf(db)
    requires forall s :: s in db.songs ==> f(s).id == s.id && f(s).playlistId == s.playlistId && f(s).created == s.created
    ensures Wf(db.(songs := Map(db.songs, f)))
  {
    TableMap(db.songs, f, SongKey, SongStamp, db.nextSongId, db.clock);
    MapMembers(db.songs, f);
  }

  // ---------------------------------------------------------------------
  // The cascade keeps the constraints and stays inside one tenant.

  lemma DeleteBandsWf(db: Db, doomed: Band -> bool)
    requires Wf(db)
    ensures Wf(DeleteBands(db, doomed))
  {
    var r := DeleteBands(db, doomed);
    var gone := DoomedBandIds(db, doomed);
    var goneP := DoomedPlaylistIds(db, doomed);
    TableFilter(db.bands, Not(doomed), BandKey, BandStamp, db.nextBandId, db.clock);
    TableFilter(db.members, Not(MemberInBands(gone)), MemberKey, MemberStamp, db.nextMemberId, db.clock);
    TableFilter(db.playlists, Not(PlaylistInBands(gone)), PlaylistKey, PlaylistStamp, db.nextPlaylistId, db.clock);
    TableFilter(db.songs, Not(SongInPlaylists(goneP)), SongKey, SongStamp, db.nextSongId, db.clock);
    assert UserIds(r) == UserIds(db);
    forall m | m in r.members ensures m.bandId in BandIds(r) {
      var b :| b in db.bands && b.id == m.bandId;
      assert b in r.bands;
    }
    forall p | p in r.playlists ensures p.bandId in BandIds(r) {
      var b :| b in db.bands && b.id == p.bandId;
      assert b in r.bands;
    }
    forall s | s in r.songs ensures s.playlistId in PlaylistIds(r) {
      var p :| p in db.playlists && p.id == s.playlistId;
      assert p in r.playlists;
    }
  }

  /** Deleting bands of tenant `u` (with their cascades) leaves every other
      tenant's view as it was. */
  lemma DeleteBandsIsolated(db: Db, doomed: Band -> bool, u: int, v: int)
    requires Wf(db) && u != v
    requires forall b :: b in db.bands && doomed(b) ==> b.userId == u
    ensures TenantView(DeleteBands(db, doomed), v) == TenantView(db, v)
  {
    var r := DeleteBands(db, doomed);
    var gone := DoomedBandIds(db, doomed);
    var goneP := DoomedPlaylistIds(db, doomed);
    OwnedBandsDisjoint(db, u, v);
    OwnedPlaylistsDisjoint(db, u, v);
    assert gone <= OwnedBandIds(db, u);
    assert goneP <= OwnedPlaylistIds(db, u);
    FilterOfFilter(db.bands, Not(doomed), OwnedBy(v));
    assert OwnedBandIds(r, v) == OwnedBandIds(db, v);
    var owned := OwnedBandIds(db, v);
    FilterOfFilter(db.members, Not(MemberInBands(gone)), MemberInBands(owned));
    FilterOfFilter(db.playlists, Not(PlaylistInBands(gone)), PlaylistInBands(owned));
    assert OwnedPlaylistIds(r, v) == OwnedPlaylistIds(db, v);
    FilterOfFilter(db.songs, Not(SongInPlaylists(goneP)), SongInPlaylists(OwnedPlaylistIds(db, v)));
  }

  /** A DELETE that matches no band changes nothing. */
  lemma DeleteNothing(db: Db, doomed: Band -> bool)
    requires forall b :: b in db.bands ==> !doomed(b)
    ensures DeleteBands(db, doomed) == db
  {
    var gone := DoomedBandIds(db, doomed);
    assert gone == {};
    assert DoomedPlaylistIds(db, doomed) == {};
    FilterKeepsAll(db.bands, Not(doomed));
    FilterKeepsAll(db.members, Not(MemberInBands(gone)));
    FilterKeepsAll(db.playlists, Not(PlaylistInBands(gone)));
    FilterKeepsAll(db.songs, Not(SongInPlaylists(DoomedPlaylistIds(db, doomed))));
  }
}
