/** The in-memory shared playlist: a package-level slice of entries and the
    next id, with entry CRUD and the artist and user-name autocomplete.

    Autocomplete lowercases and trims the query, keeps the entries whose
    field, lowercased, contains it, drops repeats of a value (compared in
    its original case), keeps the order of first appearance and returns at
    most ten. */
module MemoryPlaylist {
  import opened Wrappers
  import opened Seqs
  import opened Http
  import Text
  import Decimal

  datatype Entry = Entry(id: int, artist: string, song: string, userName: string)

  /** `playlist` and `nextPlaylistID`. */
  datatype Playlist = Playlist(entries: seq<Entry>, nextId: int)

  const Initial: Playlist := Playlist([], 1)

  /** The cap on autocomplete suggestions. */
  const MaxSuggestions: nat := 10

  function EntryId(e: Entry): int {
    e.id
  }

  function EntryIdIs(id: int): Entry -> bool {
    (e: Entry) => e.id == id
  }

  function Artist(e: Entry): string {
    e.artist
  }

  function UserName(e: Entry): string {
    e.userName
  }

  /** Artist, song and user name must all be present. */
  predicate EntryValid(e: Entry) {
    e.artist != "" && e.song != "" && e.userName != ""
  }

  ghost predicate Inv(s: Playlist) {
    Increasing(s.entries, EntryId) && KeysBelow(s.entries, EntryId, s.nextId)
  }

  /** GET /playlist */
  function GetPlaylist(s: Playlist): (r: Response<seq<Entry>>)
    ensures r.Reply? && r.code == StatusOK
    ensures forall e :: e in r.body <==> e in s.entries
    ensures r.body == s.entries
  {
    Reply(StatusOK, s.entries)
  }

  /** POST /playlist: the entry gets the next id, whatever id it carried. */
  function AddToPlaylist(s: Playlist, body: Option<Entry>): (r: Step<Playlist, Entry>)
    ensures body.None? ==> r == Step(s, Failure(StatusBadRequest, "Invalid request body"))
    ensures body.Some? && !EntryValid(body.value) ==>
              r == Step(s, Failure(StatusBadRequest, "Artist, song, and user name are required"))
    ensures r.out.Status() == StatusCreated <==> body.Some? && EntryValid(body.value)
    ensures r.out.Status() == StatusCreated ==>
              r.out == Reply(StatusCreated, body.value.(id := s.nextId))
              && r.state == Playlist(s.entries + [r.out.body], s.nextId + 1)
    ensures r.out.Status() != StatusCreated ==> r.state == s
  {
    match body
    case None => Step(s, Failure(StatusBadRequest, "Invalid request body"))
    case Some(e) =>
      if !EntryValid(e) then Step(s, Failure(StatusBadRequest, "Artist, song, and user name are required"))
      else
        var added := e.(id := s.nextId);
        Step(Playlist(s.entries + [added], s.nextId + 1), Reply(StatusCreated, added))
  }

  /** PUT /playlist/{id}: the first entry with the id is replaced by the
      body, which keeps that id. */
  function UpdatePlaylistEntry(s: Playlist, idParam: string, body: Option<Entry>): (r: Step<Playlist, Entry>)
    ensures Decimal.Atoi(idParam).None? ==> r == Step(s, Failure(StatusBadRequest, "Invalid ID format"))
    ensures Decimal.Atoi(idParam).Some? && body.None? ==> r == Step(s, Failure(StatusBadRequest, "Invalid request body"))
    ensures Decimal.Atoi(idParam).Some? && body.Some? && !EntryValid(body.value) ==>
              r == Step(s, Failure(StatusBadRequest, "Artist, song, and user name are required"))
    ensures r.out.Status() == StatusOK <==>
              Decimal.Atoi(idParam).Some? && body.Some? && EntryValid(body.value)
              && exists e :: e in s.entries && e.id == Decimal.Atoi(idParam).value
    ensures Decimal.Atoi(idParam).Some? && body.Some? && EntryValid(body.value) && r.out.Status() != StatusOK ==>
              r == Step(s, Failure(StatusNotFound, "Playlist entry not found"))
    ensures r.out.Status() != StatusOK ==> r.state == s
    ensures r.out.Status() == StatusOK ==>
              r.out == Reply(StatusOK, body.value.(id := Decimal.Atoi(idParam).value))
              && r.state.nextId == s.nextId
              && exists i :: 0 <= i < |s.entries| && s.entries[i].id == Decimal.Atoi(idParam).value
                             && (forall j :: 0 <= j < i ==> s.entries[j].id != Decimal.Atoi(idParam).value)
                             && r.state.entries == s.entries[i := r.out.body]
  {
    match Decimal.Atoi(idParam)
    case None => Step(s, Failure(StatusBadRequest, "Invalid ID format"))
    case Some(id) =>
      match body
      case None => Step(s, Failure(StatusBadRequest, "Invalid request body"))
      case Some(e) =>
        if !EntryValid(e) then Step(s, Failure(StatusBadRequest, "Artist, song, and user name are required"))
        else
          match IndexOf(s.entries, EntryIdIs(id))
          case None => Step(s, Failure(StatusNotFound, "Playlist entry not found"))
          case Some(i) =>
            assert s.entries[i] in s.entries;
            assert forall j :: 0 <= j < i ==> s.entries[j].id != id by {
              forall j | 0 <= j < i ensures s.entries[j].id != id {
                assert !EntryIdIs(id)(s.entries[j]);
              }
            }
            var updated := e.(id := id);
            Step(s.(entries := s.entries[i := updated]), Reply(StatusOK, updated))
  }

  /** DELETE /playlist/{id}: the first entry with the id is removed. */
  function DeletePlaylistEntry(s: Playlist, idParam: string): (r: Step<Playlist, ()>)
    ensures Decimal.Atoi(idParam).None? ==> r == Step(s, Failure(StatusBadRequest, "Invalid ID format"))
    ensures r.out.Status() == StatusNoContent <==>
              Decimal.Atoi(idParam).Some? && exists e :: e in s.entries && e.id == Decimal.Atoi(idParam).value
    ensures Decimal.Atoi(idParam).Some? && r.out.Status() != StatusNoContent ==>
              r == Step(s, Failure(StatusNotFound, "Playlist entry not found"))
    ensures r.out.Status() != StatusNoContent ==> r.state == s
    ensures r.out.Status() == StatusNoContent ==>
              r.out == NoContent && r.state.nextId == s.nextId
              && exists i :: 0 <= i < |s.entries| && s.entries[i].id == Decimal.Atoi(idParam).value
                             && (forall j :: 0 <= j < i ==> s.entries[j].id != Decimal.Atoi(idParam).value)
                             && r.state.entries == RemoveAt(s.entries, i)
  {
    match Decimal.Atoi(idParam)
    case None => Step(s, Failure(StatusBadRequest, "Invalid ID format"))
    case Some(id) =>
      match IndexOf(s.entries, EntryIdIs(id))
      case None => Step(s, Failure(StatusNotFound, "Playlist entry not found"))
      case Some(i) =>
        assert s.entries[i] in s.entries;
        assert forall j :: 0 <= j < i ==> s.entries[j].id != id by {
          forall j | 0 <= j < i ensures s.entries[j].id != id {
            assert !EntryIdIs(id)(s.entries[j]);
          }
        }
        Step(s.(entries := RemoveAt(s.entries, i)), NoContent)
  }

  /** GET /playlist/{id}: the first entry with the id. */
  function GetPlaylistEntry(s: Playlist, idParam: string): (r: Response<Entry>)
    ensures Decimal.Atoi(idParam).None? ==> r == Failure(StatusBadRequest, "Invalid ID format")
    ensures r.Status() == StatusOK <==>
              Decimal.Atoi(idParam).Some? && exists e :: e in s.entries && e.id == Decimal.Atoi(idParam).value
    ensures Decimal.Atoi(idParam).Some? && r.Status() != StatusOK ==> r == Failure(StatusNotFound, "Playlist entry not found")
    ensures r.Status() == StatusOK ==> r.Reply? && r.body in s.entries && r.body.id == Decimal.Atoi(idParam).value
    ensures r.Status() == StatusOK ==>
              exists i :: 0 <= i < |s.entries| && s.entries[i] == r.body
                          && forall j :: 0 <= j < i ==> s.entries[j].id != Decimal.Atoi(idParam).value
  {
    match Decimal.Atoi(idParam)
    case None => Failure(StatusBadRequest, "Invalid ID format")
    case Some(id) =>
      match IndexOf(s.entries, EntryIdIs(id))
      case None =>
        assert forall e :: e in s.entries ==> e.id != id by {
          forall e | e in s.entries ensures e.id != id {
            assert !EntryIdIs(id)(e);
          }
        }
        Failure(StatusNotFound, "Playlist entry not found")
      case Some(i) =>
        assert s.entries[i] in s.entries;
        assert forall j :: 0 <= j < i ==> s.entries[j].id != id by {
          forall j | 0 <= j < i ensures s.entries[j].id != id {
            assert !EntryIdIs(id)(s.entries[j]);
          }
        }
        Reply(StatusOK, s.entries[i])
  }

  // ---------------------------------------------------------------------
  // Autocomplete

  /** The query as it is matched: trimmed, then lowercased. */
  function Needle(q: string): string {
    Text.ToLower(Text.TrimSpace(q))
  }

  /** A value matches when its lowercase form contains the needle. */
  predicate Matches(value: string, needle: string) {
    Text.Contains(Text.ToLower(value), needle)
  }

  /** The matching values without repeats, in order of first appearance:
      the reference definition of the autocomplete loop. */
  function DistinctMatches(values: seq<string>, needle: string): (r: seq<string>)
    ensures forall x :: x in r <==> x in values && Matches(x, needle)
    ensures forall i, j :: 0 <= i < j < |r| ==> r[i] != r[j]
    decreases |values|
  {
    if values == [] then []
    else
      var init := values[..|values| - 1];
      var v := values[|values| - 1];
      assert values == init + [v];
      var prefix := DistinctMatches(init, needle);
      if Matches(v, needle) && v !in prefix then prefix + [v] else prefix
  }

  /** One more value extends the distinct matches by that value exactly
      when it matches and is new. */
  lemma DistinctMatchesNext(values: seq<string>, k: int, needle: string)
    requires 0 <= k < |values|
    ensures DistinctMatches(values[..k + 1], needle) ==
              var prefix := DistinctMatches(values[..k], needle);
              if Matches(values[k], needle) && values[k] !in prefix then prefix + [values[k]] else prefix
  {
    assert values[..k + 1][..k] == values[..k];
  }

  /** At most the first ten. */
  function Cap(r: seq<string>): (c: seq<string>)
    ensures |c| <= MaxSuggestions
    ensures |r| <= MaxSuggestions ==> c == r
    ensures |r| > MaxSuggestions ==> c == r[..MaxSuggestions]
  {
    if |r| > MaxSuggestions then r[..MaxSuggestions] else r
  }

  /** The suggestions for query `q` over `values`: none for an empty query. */
  function Suggestions(values: seq<string>, q: string): (r: seq<string>)
    ensures q == "" ==> r == []
    ensures |r| <= MaxSuggestions
    ensures forall x :: x in r ==> x in values && Text.Contains(Text.ToLower(x), Text.ToLower(Text.TrimSpace(q)))
    ensures forall i, j :: 0 <= i < j < |r| ==> r[i] != r[j]
  {
    if q == "" then [] else Cap(DistinctMatches(values, Needle(q)))
  }

  /** `x` occurs in `values` before any occurrence of `y`. */
  ghost predicate AppearsBefore(values: seq<string>, x: string, y: string) {
    exists a :: 0 <= a < |values| && values[a] == x && y !in values[..a]
  }

  /** The elements of `r` come in the order of their first appearance in
      `values`. */
  ghost predicate FirstAppearanceOrder(values: seq<string>, r: seq<string>) {
    forall i, j :: 0 <= i < j < |r| ==> AppearsBefore(values, r[i], r[j])
  }

  lemma {:induction false} DistinctMatchesOrder(values: seq<string>, needle: string)
    ensures FirstAppearanceOrder(values, DistinctMatches(values, needle))
    decreases |values|
  {
    if values != [] {
      var init := values[..|values| - 1];
      var v := values[|values| - 1];
      var prefix := DistinctMatches(init, needle);
      var r := DistinctMatches(values, needle);
      DistinctMatchesOrder(init, needle);
      forall i, j | 0 <= i < j < |r| ensures AppearsBefore(values, r[i], r[j]) {
        if j < |prefix| {
          assert r[i] == prefix[i] && r[j] == prefix[j];
          assert AppearsBefore(init, prefix[i], prefix[j]);
          var a :| 0 <= a < |init| && init[a] == r[i] && r[j] !in init[..a];
          assert values[..a] == init[..a];
        } else {
          assert r[j] == v && v !in prefix && Matches(v, needle);
          assert v !in init;
          assert r[i] == prefix[i];
          assert r[i] in init;
          var a :| 0 <= a < |init| && init[a] == r[i];
          assert values[a] == r[i];
          assert values[..a] == init[..a];
          assert forall k :: 0 <= k < a ==> values[..a][k] == init[k];
        }
      }
    }
  }

  /** Suggestions come in the order in which the values first appear. */
  lemma SuggestionsOrder(values: seq<string>, q: string)
    ensures FirstAppearanceOrder(values, Suggestions(values, q))
  {
    if q != "" {
      var all := DistinctMatches(values, Needle(q));
      DistinctMatchesOrder(values, Needle(q));
      var r := Suggestions(values, q);
      assert r == Cap(all);
      forall i, j | 0 <= i < j < |r| ensures AppearsBefore(values, r[i], r[j]) {
        assert r[i] == all[i] && r[j] == all[j];
      }
    }
  }

  /** Below the cap, the suggestions include every matching value. */
  lemma SuggestionsComplete(values: seq<string>, q: string)
    requires q != "" && |Suggestions(values, q)| < MaxSuggestions
    ensures forall x :: x in values && Matches(x, Needle(q)) ==> x in Suggestions(values, q)
  {
    var all := DistinctMatches(values, Needle(q));
    assert Suggestions(values, q) == Cap(all);
    assert |all| <= MaxSuggestions;
  }

  /** The handler loop: a `map[string]bool` of values already taken and the
      result slice, truncated to ten at the end. */
  method Autocomplete(values: seq<string>, q: string) returns (r: seq<string>)
    ensures r == Suggestions(values, q)
  {
    if q == "" {
      return [];
    }
    var needle := Text.ToLower(Text.TrimSpace(q));
    var seen: map<string, bool> := map[];
    var found: seq<string> := [];
    var k := 0;
    while k < |values|
      invariant 0 <= k <= |values|
      invariant found == DistinctMatches(values[..k], needle)
      invariant forall x :: x in seen <==> x in found
      invariant forall x :: x in seen ==> seen[x]
    {
      var value := values[k];
      DistinctMatchesNext(values, k, needle);
      if Text.Contains(Text.ToLower(value), needle) {
        if !(value in seen && seen[value]) {
          seen := seen[value := true];
          found := found + [value];
        }
      }
      k := k + 1;
    }
    assert values[..|values|] == values;
    if |found| > MaxSuggestions {
      found := found[..MaxSuggestions];
    }
    r := found;
  }

  /** GET /playlist/artists?q= */
  method GetArtists(s: Playlist, q: string) returns (r: Response<seq<string>>)
    ensures r == Reply(StatusOK, Suggestions(Map(s.entries, Artist), q))
  {
    var names := Autocomplete(Map(s.entries, Artist), q);
    r := Reply(StatusOK, names);
  }

  /** GET /playlist/users?q= */
  method GetUserNames(s: Playlist, q: string) returns (r: Response<seq<string>>)
    ensures r == Reply(StatusOK, Suggestions(Map(s.entries, UserName), q))
  {
    var names := Autocomplete(Map(s.entries, UserName), q);
    r := Reply(StatusOK, names);
  }

  lemma InitialInv()
    ensures Inv(Initial)
  {
  }

  lemma AddToPlaylistInv(s: Playlist, body: Option<Entry>)
    requires Inv(s)
    ensures Inv(AddToPlaylist(s, body).state)
  {
    var r := AddToPlaylist(s, body);
    if r.out.Status() == StatusCreated {
      SnocIncreasing(s.entries, r.out.body, EntryId);
    }
  }

  lemma UpdatePlaylistEntryInv(s: Playlist, idParam: string, body: Option<Entry>)
    requires Inv(s)
    ensures Inv(UpdatePlaylistEntry(s, idParam, body).state)
  {
    var r := UpdatePlaylistEntry(s, idParam, body);
    if r.out.Status() == StatusOK {
      var i :| 0 <= i < |s.entries| && s.entries[i].id == Decimal.Atoi(idParam).value
               && r.state.entries == s.entries[i := r.out.body];
      ReplaceIncreasing(s.entries, i, r.out.body, EntryId);
      ReplaceKeysBelow(s.entries, i, r.out.body, EntryId, s.nextId);
    }
  }

  lemma DeletePlaylistEntryInv(s: Playlist, idParam: string)
    requires Inv(s)
    ensures Inv(DeletePlaylistEntry(s, idParam).state)
  {
    var r := DeletePlaylistEntry(s, idParam);
    if r.out.Status() == StatusNoContent {
      var i :| 0 <= i < |s.entries| && r.state.entries == RemoveAt(s.entries, i);
      RemoveAtIncreasing(s.entries, i, EntryId);
    }
  }

  /** Because ids are distinct, a deleted entry is gone and every other
      entry remains. */
  lemma DeleteEntryRemovesExactly(s: Playlist, idParam: string)
    requires Inv(s)
    requires DeletePlaylistEntry(s, idParam).out.Status() == StatusNoContent
    ensures forall e :: e in DeletePlaylistEntry(s, idParam).state.entries <==> e in s.entries && e.id != Decimal.Atoi(idParam).value
  {
    var r := DeletePlaylistEntry(s, idParam);
    var i :| 0 <= i < |s.entries| && s.entries[i].id == Decimal.Atoi(idParam).value && r.state.entries == RemoveAt(s.entries, i);
    RemoveAtKey(s.entries, i, EntryId);
  }

  /** An added entry can be read back by the id it was given. */
  lemma AddThenGetEntry(s: Playlist, body: Option<Entry>)
    requires AddToPlaylist(s, body).out.Status() == StatusCreated
    ensures GetPlaylistEntry(AddToPlaylist(s, body).state, Decimal.Itoa(s.nextId)).Status() == StatusOK
            || s.nextId < Decimal.MinInt64 || s.nextId > Decimal.MaxInt64
  {
    var r := AddToPlaylist(s, body);
    if Decimal.MinInt64 <= s.nextId <= Decimal.MaxInt64 {
      Decimal.AtoiItoa(s.nextId);
      assert r.out.body in r.state.entries;
    }
  }
}
