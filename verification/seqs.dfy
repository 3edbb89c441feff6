/** Sequence operations the model is written in.

    A SQL `WHERE` clause becomes `Filter`, an `UPDATE ... SET` becomes `Map`
    with a function that changes only the matching rows, `db.Get` takes the
    `First` row of a result set, and the in-memory handlers' loops over Go
    slices become `IndexOf`, `RemoveAt` and index update. */
module Seqs {
  import opened Wrappers

  /** The elements of `s` that satisfy `p`, in their original order. */
  function Filter<T(!new)>(s: seq<T>, p: T -> bool): (r: seq<T>)
    ensures |r| <= |s|
    ensures forall x :: x in r <==> x in s && p(x)
    decreases |s|
  {
    if |s| == 0 then []
    else
      var init := Filter(s[..|s| - 1], p);
      var last := s[|s| - 1];
      assert forall x :: x in s <==> x in s[..|s| - 1] || x == last;
      if p(last) then init + [last] else init
  }

  /** The negation of a row predicate (`WHERE NOT ...`, or the rows a DELETE
      keeps). */
  function Not<T(!new)>(p: T -> bool): T -> bool {
    x => !p(x)
  }

  /** Filter of a sequence extended by one element. */
  lemma FilterSnoc<T(!new)>(s: seq<T>, x: T, p: T -> bool)
    ensures Filter(s + [x], p) == if p(x) then Filter(s, p) + [x] else Filter(s, p)
  {
    assert (s + [x])[..|s|] == s;
  }

  lemma {:induction false} FilterAppend<T(!new)>(s: seq<T>, t: seq<T>, p: T -> bool)
    ensures Filter(s + t, p) == Filter(s, p) + Filter(t, p)
    decreases |t|
  {
    if |t| == 0 {
      assert s + t == s;
    } else {
      var t' := t[..|t| - 1];
      var last := t[|t| - 1];
      assert t == t' + [last];
      assert s + t == (s + t') + [last];
      var tail := if p(last) then [last] else [];
      calc {
        Filter(s + t, p);
        Filter((s + t') + [last], p);
        { FilterSnoc(s + t', last, p); }
        Filter(s + t', p) + tail;
        { FilterAppend(s, t', p); }
        (Filter(s, p) + Filter(t', p)) + tail;
        Filter(s, p) + (Filter(t', p) + tail);
        { FilterSnoc(t', last, p); }
        Filter(s, p) + Filter(t, p);
      }
    }
  }

  lemma {:induction false} FilterKeepsAll<T(!new)>(s: seq<T>, p: T -> bool)
    requires forall x :: x in s ==> p(x)
    ensures Filter(s, p) == s
    decreases |s|
  {
    if |s| > 0 {
      FilterKeepsAll(s[..|s| - 1], p);
      assert s == s[..|s| - 1] + [s[|s| - 1]];
    }
  }

  lemma FilterDropsAll<T(!new)>(s: seq<T>, p: T -> bool)
    requires forall x :: x in s ==> !p(x)
    ensures Filter(s, p) == []
  {
    if Filter(s, p) != [] {
      assert Filter(s, p)[0] in Filter(s, p);
    }
  }

  /** Filters that agree on the elements of `s` select the same rows. */
  lemma {:induction false} FilterCongruent<T(!new)>(s: seq<T>, p: T -> bool, q: T -> bool)
    requires forall x :: x in s ==> p(x) == q(x)
    ensures Filter(s, p) == Filter(s, q)
    decreases |s|
  {
    if |s| > 0 {
      FilterCongruent(s[..|s| - 1], p, q);
    }
  }

  /** Removing rows that `q` rejects anyway does not change what `q` selects. */
  lemma {:induction false} FilterOfFilter<T(!new)>(s: seq<T>, p: T -> bool, q: T -> bool)
    requires forall x :: x in s && !p(x) ==> !q(x)
    ensures Filter(Filter(s, p), q) == Filter(s, q)
    decreases |s|
  {
    if |s| > 0 {
      var init := s[..|s| - 1];
      var last := s[|s| - 1];
      FilterOfFilter(init, p, q);
      if p(last) {
        FilterAppend(Filter(init, p), [last], q);
      }
    }
  }

  /** Two WHERE conditions can be applied in either order. */
  lemma {:induction false} FilterCommute<T(!new)>(s: seq<T>, p: T -> bool, q: T -> bool)
    ensures Filter(Filter(s, p), q) == Filter(Filter(s, q), p)
  {
    if s != [] {
      var init, x := s[..|s| - 1], s[|s| - 1];
      assert s == init + [x];
      FilterCommute(init, p, q);
      FilterSnoc(init, x, p);
      FilterSnoc(init, x, q);
      FilterSnoc(Filter(init, p), x, q);
      FilterSnoc(Filter(init, q), x, p);
    }
  }

  /** `f` applied to every element. */
  function Map<T(!new), U(!new)>(s: seq<T>, f: T -> U): (r: seq<U>)
    ensures |r| == |s|
    ensures forall i :: 0 <= i < |s| ==> r[i] == f(s[i])
  {
    seq(|s|, i requires 0 <= i < |s| => f(s[i]))
  }

  /** Every element of `Map(s, f)` is the image of an element of `s`. */
  lemma MapMembers<T(!new), U(!new)>(s: seq<T>, f: T -> U)
    ensures forall x :: x in s ==> f(x) in Map(s, f)
    ensures forall y :: y in Map(s, f) ==> exists x :: x in s && y == f(x)
  {
    var r := Map(s, f);
    forall x | x in s ensures f(x) in r {
      var i :| 0 <= i < |s| && s[i] == x;
      assert r[i] == f(x);
    }
    forall y | y in r ensures exists x :: x in s && y == f(x) {
      var i :| 0 <= i < |r| && r[i] == y;
      assert s[i] in s;
    }
  }

  lemma MapIdentity<T(!new)>(s: seq<T>, f: T -> T)
    requires forall x :: x in s ==> f(x) == x
    ensures Map(s, f) == s
  {
  }

  /** An update that touches only rows `q` rejects, before and after, does not
      change what `q` selects. */
  lemma {:induction false} FilterOfMap<T(!new)>(s: seq<T>, f: T -> T, q: T -> bool)
    requires forall x :: x in s ==> f(x) == x || (!q(x) && !q(f(x)))
    ensures Filter(Map(s, f), q) == Filter(s, q)
    decreases |s|
  {
    if |s| > 0 {
      var init := s[..|s| - 1];
      FilterOfMap(init, f, q);
      assert Map(s, f)[..|s| - 1] == Map(init, f);
    }
  }

  /** The first element of `s` that satisfies `p` (`db.Get` on a result set). */
  function First<T(!new)>(s: seq<T>, p: T -> bool): (r: Option<T>)
    ensures r.Some? ==> r.value in s && p(r.value)
    ensures r.None? <==> forall x :: x in s ==> !p(x)
  {
    var f := Filter(s, p);
    if |f| == 0 then None
    else
      assert f[0] in f;
      Some(f[0])
  }

  /** Index of the first element that satisfies `p` (a `for i := range`
      loop that stops at the first match). */
  function IndexOf<T(!new)>(s: seq<T>, p: T -> bool): (r: Option<nat>)
    ensures r.Some? ==> r.value < |s| && p(s[r.value])
    ensures r.Some? ==> forall j :: 0 <= j < r.value ==> !p(s[j])
    ensures r.None? <==> forall j :: 0 <= j < |s| ==> !p(s[j])
    ensures r.None? <==> forall x :: x in s ==> !p(x)
    decreases |s|
  {
    if |s| == 0 then None
    else if p(s[0]) then Some(0)
    else
      match IndexOf(s[1..], p)
      case None => None
      case Some(k) => Some(k + 1)
  }

  /** `append(s[:i], s[i+1:]...)` */
  function RemoveAt<T(!new)>(s: seq<T>, i: nat): (r: seq<T>)
    requires i < |s|
    ensures |r| == |s| - 1
    ensures forall j :: 0 <= j < i ==> r[j] == s[j]
    ensures forall j :: i <= j < |r| ==> r[j] == s[j + 1]
  {
    s[..i] + s[i + 1..]
  }

  function Reverse<T(!new)>(s: seq<T>): (r: seq<T>)
    ensures |r| == |s|
    ensures forall i :: 0 <= i < |s| ==> r[i] == s[|s| - 1 - i]
    ensures forall x :: x in r <==> x in s
    decreases |s|
  {
    if |s| == 0 then [] else [s[|s| - 1]] + Reverse(s[..|s| - 1])
  }

  /** `key` strictly increases along `s`. */
  ghost predicate Increasing<T(!new)>(s: seq<T>, key: T -> int) {
    forall i, j :: 0 <= i < j < |s| ==> key(s[i]) < key(s[j])
  }

  /** `key` strictly decreases along `s`. */
  ghost predicate Decreasing<T(!new)>(s: seq<T>, key: T -> int) {
    forall i, j :: 0 <= i < j < |s| ==> key(s[i]) > key(s[j])
  }

  /** No two elements of `s` share a key. */
  ghost predicate KeyUnique<T(!new), K>(s: seq<T>, key: T -> K) {
    forall x, y :: x in s && y in s && key(x) == key(y) ==> x == y
  }

  /** Every key in `s` is below `bound` (ids below the next id to allocate). */
  ghost predicate KeysBelow<T(!new)>(s: seq<T>, key: T -> int, bound: int) {
    forall x :: x in s ==> key(x) < bound
  }

  /** A subsequence of an increasing sequence is increasing. */
  lemma {:induction false} FilterIncreasing<T(!new)>(s: seq<T>, p: T -> bool, key: T -> int)
    requires Increasing(s, key)
    ensures Increasing(Filter(s, p), key)
    decreases |s|
  {
    if |s| > 0 {
      var init := s[..|s| - 1];
      var last := s[|s| - 1];
      FilterIncreasing(init, p, key);
      if p(last) {
        var r := Filter(s, p);
        forall i, j | 0 <= i < j < |r| ensures key(r[i]) < key(r[j]) {
          if j == |r| - 1 {
            assert r[i] in Filter(init, p);
            var k :| 0 <= k < |init| && init[k] == r[i];
            assert s[k] == r[i];
          } else {
            assert r[i] == Filter(init, p)[i] && r[j] == Filter(init, p)[j];
          }
        }
      }
    }
  }

  lemma ReverseIncreasing<T(!new)>(s: seq<T>, key: T -> int)
    requires Increasing(s, key)
    ensures Decreasing(Reverse(s), key)
  {
  }

  /** Appending an element whose key exceeds every other keeps the order. */
  lemma AppendIncreasing<T(!new)>(s: seq<T>, t: seq<T>, key: T -> int)
    requires Increasing(s, key) && Increasing(t, key)
    requires forall x, y :: x in s && y in t ==> key(x) < key(y)
    ensures Increasing(s + t, key)
  {
    var r := s + t;
    forall i, j | 0 <= i < j < |r| ensures key(r[i]) < key(r[j]) {
      if i < |s| && j >= |s| {
        assert r[i] in s && r[j] in t;
      }
    }
  }

  lemma MapIncreasing<T(!new)>(s: seq<T>, f: T -> T, key: T -> int)
    requires Increasing(s, key)
    requires forall x :: x in s ==> key(f(x)) == key(x)
    ensures Increasing(Map(s, f), key)
  {
    var r := Map(s, f);
    forall i, j | 0 <= i < j < |r| ensures key(r[i]) < key(r[j]) {
      assert s[i] in s && s[j] in s;
    }
  }

  lemma MapKeyUnique<T(!new), K>(s: seq<T>, f: T -> T, key: T -> K)
    requires KeyUnique(s, key)
    requires forall x :: x in s ==> key(f(x)) == key(x)
    ensures KeyUnique(Map(s, f), key)
  {
    MapMembers(s, f);
  }

  /** The set of keys of the elements of `s`. */
  function Keys<T(==,!new), K>(s: seq<T>, key: T -> K): (r: set<K>)
    ensures forall x :: x in s ==> key(x) in r
    ensures forall k :: k in r ==> exists x :: x in s && k == key(x)
  {
    set x | x in s :: key(x)
  }

  lemma KeysSnoc<T(!new), K>(s: seq<T>, x: T, key: T -> K)
    ensures Keys(s + [x], key) == Keys(s, key) + {key(x)}
  {
    forall k | k in Keys(s + [x], key) ensures k in Keys(s, key) + {key(x)} {
      var y :| y in s + [x] && k == key(y);
      if y != x {
        assert y in s;
      }
    }
  }

  /** With unique keys and no repeated element, a sequence has as many
      distinct keys as elements. */
  lemma {:induction false} KeyCount<T(!new)>(s: seq<T>, key: T -> int, stamp: T -> int)
    requires KeyUnique(s, key) && Increasing(s, stamp)
    ensures |Keys(s, key)| == |s|
    decreases |s|
  {
    if |s| > 0 {
      var init := s[..|s| - 1];
      var last := s[|s| - 1];
      assert Increasing(init, stamp) by {
        forall i, j | 0 <= i < j < |init| ensures stamp(init[i]) < stamp(init[j]) {
          assert init[i] == s[i] && init[j] == s[j];
        }
      }
      assert KeyUnique(init, key) by {
        forall x, y | x in init && y in init && key(x) == key(y) ensures x == y {
          assert x in s && y in s;
        }
      }
      assert key(last) !in Keys(init, key) by {
        forall x | x in init ensures key(x) != key(last) {
          var k :| 0 <= k < |init| && init[k] == x;
          assert stamp(s[k]) < stamp(s[|s| - 1]);
        }
      }
      KeyCount(init, key, stamp);
      assert s == init + [last];
      KeysSnoc(init, last, key);
    }
  }

  /** Replacing one element by another with the same key keeps the keys
      increasing (an in-place update that preserves the id). */
  lemma ReplaceIncreasing<T(!new)>(s: seq<T>, i: nat, x: T, key: T -> int)
    requires i < |s| && Increasing(s, key) && key(x) == key(s[i])
    ensures Increasing(s[i := x], key)
  {
  }

  /** Replacing an element by one with the same key keeps every key below
      the bound. */
  lemma ReplaceKeysBelow<T(!new)>(s: seq<T>, i: nat, x: T, key: T -> int, bound: int)
    requires i < |s| && KeysBelow(s, key, bound) && key(x) == key(s[i])
    ensures KeysBelow(s[i := x], key, bound)
  {
    forall y | y in s[i := x] ensures key(y) < bound {
      var j :| 0 <= j < |s[i := x]| && s[i := x][j] == y;
      if j != i {
        assert y == s[j];
      }
    }
  }

  /** Removing an element keeps the rest in order, and adds nothing. */
  lemma RemoveAtIncreasing<T(!new)>(s: seq<T>, i: nat, key: T -> int)
    requires i < |s| && Increasing(s, key)
    ensures Increasing(RemoveAt(s, i), key)
    ensures forall x :: x in RemoveAt(s, i) ==> x in s
  {
    var r := RemoveAt(s, i);
    forall x | x in r ensures x in s {
      var k :| 0 <= k < |r| && r[k] == x;
      if k >= i {
        assert r[k] == s[k + 1];
      }
    }
  }

  /** With increasing keys, removing position `i` removes exactly the
      elements that share its key. */
  lemma RemoveAtKey<T(!new)>(s: seq<T>, i: nat, key: T -> int)
    requires i < |s| && Increasing(s, key)
    ensures forall x :: x in RemoveAt(s, i) <==> x in s && key(x) != key(s[i])
  {
    var r := RemoveAt(s, i);
    forall x | x in r ensures x in s && key(x) != key(s[i]) {
      var k :| 0 <= k < |r| && r[k] == x;
      if k >= i {
        assert r[k] == s[k + 1];
      }
    }
    forall x | x in s && key(x) != key(s[i]) ensures x in r {
      var k :| 0 <= k < |s| && s[k] == x;
      if k < i {
        assert r[k] == x;
      } else {
        assert r[k - 1] == x;
      }
    }
  }

  /** Appending an element whose key exceeds every key present keeps the
      keys increasing (an append with the next id). */
  lemma SnocIncreasing<T(!new)>(s: seq<T>, x: T, key: T -> int)
    requires Increasing(s, key) && KeysBelow(s, key, key(x))
    ensures Increasing(s + [x], key)
  {
    var r := s + [x];
    forall i, j | 0 <= i < j < |r| ensures key(r[i]) < key(r[j]) {
      if j == |s| {
        assert r[i] in s;
      }
    }
  }

  /** In a sequence with increasing keys, a key occurs at one position. */
  lemma IncreasingKeyAt<T(!new)>(s: seq<T>, key: T -> int, i: nat, j: nat)
    requires Increasing(s, key) && i < |s| && j < |s| && key(s[i]) == key(s[j])
    ensures i == j
  {
  }

  /** Filter of a sequence split around one element. */
  lemma FilterAround<T(!new)>(a: seq<T>, x: T, b: seq<T>, p: T -> bool)
    ensures Filter(a + [x] + b, p) == Filter(a, p) + (if p(x) then [x] else []) + Filter(b, p)
  {
    FilterAppend(a + [x], b, p);
    FilterSnoc(a, x, p);
  }

  /** Replacing an element the filter drops by another it drops leaves the
      filtered sequence unchanged. */
  lemma FilterReplace<T(!new)>(s: seq<T>, i: nat, x: T, p: T -> bool)
    requires i < |s| && !p(s[i]) && !p(x)
    ensures Filter(s[i := x], p) == Filter(s, p)
  {
    var a, b := s[..i], s[i + 1..];
    assert s == a + [s[i]] + b;
    assert s[i := x] == a + [x] + b;
    FilterAround(a, s[i], b, p);
    FilterAround(a, x, b, p);
  }

  /** An element the filter drops contributes nothing wherever it stands. */
  lemma FilterDropMiddle<T(!new)>(a: seq<T>, x: T, b: seq<T>, p: T -> bool)
    requires !p(x)
    ensures Filter(a + [x] + b, p) == Filter(a + b, p)
  {
    calc {
      Filter(a + [x] + b, p);
      { FilterAppend(a + [x], b, p); }
      Filter(a + [x], p) + Filter(b, p);
      { FilterSnoc(a, x, p); }
      Filter(a, p) + Filter(b, p);
      { FilterAppend(a, b, p); }
      Filter(a + b, p);
    }
  }

  /** Removing an element the filter drops leaves the filtered sequence
      unchanged. */
  lemma FilterRemoveAt<T(!new)>(s: seq<T>, i: nat, p: T -> bool)
    requires i < |s| && !p(s[i])
    ensures Filter(RemoveAt(s, i), p) == Filter(s, p)
  {
    var a, x, b := s[..i], s[i], s[i + 1..];
    calc {
      Filter(RemoveAt(s, i), p);
      { assert RemoveAt(s, i) == a + b; }
      Filter(a + b, p);
      { FilterDropMiddle(a, x, b, p); }
      Filter(a + [x] + b, p);
      { assert s == s[..i] + s[i..];
        assert s[i..] == [x] + b;
        assert s == a + [x] + b; }
      Filter(s, p);
    }
  }
}
