/** `ORDER BY s.position ASC, s.created_at ASC` on playlist songs.

    The order is computed by insertion sort on sequences and specified
    independently: the result is sorted by (position, stamp) and is a
    permutation of the input. When stamps are distinct, as they are in a
    well-formed database, that specification admits exactly one answer. */
module SongOrder {
  import opened Schema

  /** `a` may come before `b`: lower position first, then earlier stamp. */
  predicate Before(a: Song, b: Song) {
    a.position < b.position || (a.position == b.position && a.created <= b.created)
  }

  ghost predicate Sorted(s: seq<Song>) {
    forall i, j :: 0 <= i < j < |s| ==> Before(s[i], s[j])
  }

  /** `x` placed in the sorted sequence `s` after every element that comes
      before it. */
  function Insert(x: Song, s: seq<Song>): (r: seq<Song>)
    requires Sorted(s)
    ensures Sorted(r)
    ensures multiset(r) == multiset(s) + multiset{x}
    ensures |r| == |s| + 1
  {
    if s == [] then [x]
    else if Before(x, s[0]) then
      InsertFront(x, s);
      [x] + s
    else
      var rest := Insert(x, s[1..]);
      InsertBehind(x, s, rest);
      [s[0]] + rest
  }

  /** An element that comes before the head of a sorted sequence may lead it. */
  lemma InsertFront(x: Song, s: seq<Song>)
    requires Sorted(s) && s != [] && Before(x, s[0])
    ensures Sorted([x] + s)
  {
    forall j | 0 <= j < |s| ensures Before(x, s[j]) {
      if j > 0 { assert Before(s[0], s[j]); }
    }
  }

  /** The head of a sorted sequence may lead the rest with `x` inserted, when
      `x` does not come before it. */
  lemma InsertBehind(x: Song, s: seq<Song>, rest: seq<Song>)
    requires Sorted(s) && s != [] && !Before(x, s[0])
    requires Sorted(rest) && multiset(rest) == multiset(s[1..]) + multiset{x}
    ensures Sorted([s[0]] + rest)
    ensures multiset([s[0]] + rest) == multiset(s) + multiset{x}
  {
    assert s == [s[0]] + s[1..];
    forall j | 0 <= j < |rest| ensures Before(s[0], rest[j]) {
      var y := rest[j];
      assert y in multiset(rest);
      if y != x {
        assert y in multiset(s[1..]);
        var k :| 0 <= k < |s[1..]| && s[1..][k] == y;
        assert s[k + 1] == y;
      }
    }
  }

  /** The songs in (position, stamp) order. */
  function SortSongs(songs: seq<Song>): (r: seq<Song>)
    ensures Sorted(r)
    ensures multiset(r) == multiset(songs)
    ensures |r| == |songs|
  {
    if songs == [] then []
    else
      assert songs == songs[..|songs| - 1] + [songs[|songs| - 1]];
      Insert(songs[|songs| - 1], SortSongs(songs[..|songs| - 1]))
  }

  /** A stamp identifies a song. */
  ghost predicate StampsIdentify(s: seq<Song>) {
    forall x, y :: x in s && y in s && x.created == y.created ==> x == y
  }

  lemma MinimalFirst(a: seq<Song>, b: seq<Song>)
    requires Sorted(a) && Sorted(b) && multiset(a) == multiset(b) && a != []
    requires StampsIdentify(a)
    ensures b != [] && a[0] == b[0]
  {
    assert a[0] in multiset(b);
    assert b[0] in multiset(a);
    var i :| 0 <= i < |a| && a[i] == b[0];
    var j :| 0 <= j < |b| && b[j] == a[0];
    if i != 0 {
      assert Before(a[0], a[i]);
    }
    if j != 0 {
      assert Before(b[0], b[j]);
    }
  }

  /** When stamps identify songs the order is total: two sorted
      arrangements of the same songs are the same sequence. */
  lemma {:induction false} SortedUnique(a: seq<Song>, b: seq<Song>)
    requires Sorted(a) && Sorted(b) && multiset(a) == multiset(b)
    requires StampsIdentify(a)
    ensures a == b
    decreases |a|
  {
    if a == [] {
      assert |b| == |multiset(b)| == 0;
    } else {
      MinimalFirst(a, b);
      TailMultiset(a, b);
      TailStamps(a);
      SortedUnique(a[1..], b[1..]);
    }
  }

  lemma TailMultiset(a: seq<Song>, b: seq<Song>)
    requires a != [] && b != [] && a[0] == b[0] && multiset(a) == multiset(b)
    ensures multiset(a[1..]) == multiset(b[1..])
  {
    assert a == [a[0]] + a[1..] && b == [b[0]] + b[1..];
    assert multiset(a) == multiset([a[0]]) + multiset(a[1..]);
    assert multiset(b) == multiset([b[0]]) + multiset(b[1..]);
    forall x ensures multiset(a[1..])[x] == multiset(b[1..])[x] {
      assert multiset(a)[x] == multiset([a[0]])[x] + multiset(a[1..])[x];
      assert multiset(b)[x] == multiset([b[0]])[x] + multiset(b[1..])[x];
    }
  }

  lemma TailStamps(a: seq<Song>)
    requires a != [] && StampsIdentify(a)
    ensures StampsIdentify(a[1..])
  {
    forall x, y | x in a[1..] && y in a[1..] ensures x in a && y in a { }
  }

  /** The sort returns the one sorted arrangement of its input. */
  lemma SortSongsIsTheOrder(songs: seq<Song>, ordered: seq<Song>)
    requires StampsIdentify(songs)
    requires Sorted(ordered) && multiset(ordered) == multiset(songs)
    ensures SortSongs(songs) == ordered
  {
    var r := SortSongs(songs);
    assert forall x :: x in r <==> x in songs by {
      forall x ensures x in r <==> x in songs {
        assert x in r <==> x in multiset(r);
        assert x in songs <==> x in multiset(songs);
      }
    }
    SortedUnique(r, ordered);
  }
}
