/** SQL `ORDER BY`: every row gets a sort key, and a sort returns a
    permutation of its input with keys in non-increasing order. A key is a
    pair compared lexicographically, which covers the two-column ordering
    `visitCount DESC, lastVisit DESC`; an ascending column is ranked by its
    negation. Order among rows with equal keys is unspecified, as in SQL. */
module Ranking {
  import Seqs

  /** A sort key: a row with a larger key is listed first. */
  datatype Key = Key(major: int, minor: int)

  /** A row with key `a` may be listed ahead of a row with key `b`. */
  predicate Ahead(a: Key, b: Key) {
    a.major > b.major || (a.major == b.major && a.minor >= b.minor)
  }

  /** Every row of `s` may be listed ahead of every later row. */
  predicate SortedBy<T>(s: seq<T>, key: T -> Key) {
    forall i, j :: 0 <= i < j < |s| ==> Ahead(key(s[i]), key(s[j]))
  }

  /** Places `x` into the sorted sequence `s`. */
  function Insert<T>(x: T, s: seq<T>, key: T -> Key): (r: seq<T>)
    requires SortedBy(s, key)
    ensures multiset(r) == multiset(s) + multiset{x}
    ensures SortedBy(r, key)
    ensures r[0] == x || (s != [] && r[0] == s[0])
    decreases |s|
  {
    if s == [] then [x]
    else if Ahead(key(x), key(s[0])) then
      [x] + s
    else
      var rest := Insert(x, s[1..], key);
      InsertStep(x, s, key, rest);
      [s[0]] + rest
  }

  /** Placing `x` behind the head of `s` keeps the order. */
  lemma InsertStep<T>(x: T, s: seq<T>, key: T -> Key, rest: seq<T>)
    requires SortedBy(s, key) && s != [] && !Ahead(key(x), key(s[0]))
    requires multiset(rest) == multiset(s[1..]) + multiset{x}
    requires SortedBy(rest, key)
    requires rest[0] == x || (s[1..] != [] && rest[0] == s[1..][0])
    ensures multiset([s[0]] + rest) == multiset(s) + multiset{x}
    ensures SortedBy([s[0]] + rest, key)
  {
    assert s == [s[0]] + s[1..];
    assert Ahead(key(s[0]), key(rest[0]));
    assert forall j :: 0 <= j < |rest| ==> Ahead(key(rest[0]), key(rest[j]));
  }

  /** The rows of `s`, ordered by `key`. */
  function Sort<T>(s: seq<T>, key: T -> Key): (r: seq<T>)
    ensures multiset(r) == multiset(s)
    ensures |r| == |s|
    ensures SortedBy(r, key)
    decreases |s|
  {
    if s == [] then []
    else
      assert s == [s[0]] + s[1..];
      Insert(s[0], Sort(s[1..], key), key)
  }

  /** A sorted sequence split into a head and a tail: every row of the
      head may be listed ahead of every row of the tail. */
  lemma SortedSplit<T>(s: seq<T>, key: T -> Key, k: nat)
    requires SortedBy(s, key)
    requires k <= |s|
    ensures forall x, y :: x in s[..k] && y in s[k..] ==> Ahead(key(x), key(y))
  {
    forall x, y | x in s[..k] && y in s[k..]
      ensures Ahead(key(x), key(y))
    {
      var i :| 0 <= i < k && s[i] == x;
      var j :| 0 <= j < |s| - k && s[k..][j] == y;
      assert s[k + j] == y;
    }
  }

  /** A window of a sorted sequence is sorted. */
  lemma SliceSorted<T>(s: seq<T>, key: T -> Key, a: nat, b: nat)
    requires SortedBy(s, key)
    requires a <= b <= |s|
    ensures SortedBy(s[a..b], key)
  {
    assert forall i :: 0 <= i < b - a ==> s[a..b][i] == s[a + i];
  }

  /** `r` is what `ORDER BY key LIMIT limit OFFSET offset` may return for
      the rows `s`: the window of some ordering of all of `s` by the key,
      whichever way ties happen to fall. */
  ghost predicate WindowOfRanking<T(!new)>(r: seq<T>, s: seq<T>, key: T -> Key, limit: int, offset: int) {
    exists t :: multiset(t) == multiset(s) && SortedBy(t, key) && r == Seqs.Window(t, limit, offset)
  }

  /** `ORDER BY key LIMIT limit OFFSET offset`. */
  function RankedWindow<T>(s: seq<T>, key: T -> Key, limit: int, offset: int): (r: seq<T>)
    ensures SortedBy(r, key)
    ensures multiset(r) <= multiset(s)
    ensures |r| == Seqs.WindowSize(|s|, limit, offset)
    ensures (limit < 0 || limit >= |s|) && offset <= 0 ==> multiset(r) == multiset(s)
  {
    var ranked := Sort(s, key);
    var r := Seqs.Window(ranked, limit, offset);
    var a := Seqs.WindowStart(|s|, offset);
    SliceSorted(ranked, key, a, a + |r|);
    assert (limit < 0 || limit >= |s|) && offset <= 0 ==> r == ranked;
    r
  }

  /** The window is cut from one ordering of all the rows: the rows the
      offset skips rank ahead of it and the rows the limit drops rank
      behind it. */
  lemma RankedWindowIsWindowOfRanking<T(!new)>(s: seq<T>, key: T -> Key, limit: int, offset: int)
    ensures WindowOfRanking(RankedWindow(s, key, limit, offset), s, key, limit, offset)
  {
    assert RankedWindow(s, key, limit, offset) == Seqs.Window(Sort(s, key), limit, offset);
  }

  /** The first page of a ranking is a top-k answer: every row of `s` left
      out ranks no earlier than every row kept. */
  lemma TopK<T>(s: seq<T>, key: T -> Key, k: nat)
    ensures var r := RankedWindow(s, key, k, 0);
      forall x, y :: x in r && y in multiset(s) - multiset(r) ==> Ahead(key(x), key(y))
  {
    var sorted := Sort(s, key);
    var r := RankedWindow(s, key, k, 0);
    assert r == Seqs.Window(sorted, k, 0);
    if k <= |s| {
      assert r == sorted[..k];
      SortedPrefixLeads(sorted, key, k);
    } else {
      assert multiset(s) - multiset(r) == multiset{};
    }
  }

  /** The first `k` rows of a sorted sequence lead every row after them. */
  lemma SortedPrefixLeads<T>(s: seq<T>, key: T -> Key, k: nat)
    requires SortedBy(s, key)
    requires k <= |s|
    ensures forall x, y :: x in s[..k] && y in multiset(s) - multiset(s[..k]) ==> Ahead(key(x), key(y))
  {
    assert s == s[..k] + s[k..];
    assert multiset(s) - multiset(s[..k]) == multiset(s[k..]);
    SortedSplit(s, key, k);
  }
}
