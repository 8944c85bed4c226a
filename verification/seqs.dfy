/** Order-preserving filtering and SQL-style paging over sequences. */
module Seqs {

  /** `r` can be obtained from `s` by deleting elements: order is preserved
      and nothing is added. */
  predicate IsSubsequence<T(==,!new)>(r: seq<T>, s: seq<T>)
    decreases |s|
  {
    r == [] || (s != [] && ((r[0] == s[0] && IsSubsequence(r[1..], s[1..])) || IsSubsequence(r, s[1..])))
  }

  /** JavaScript `Array.prototype.filter` and SQL `WHERE`: the elements of
      `s` that satisfy `p`, in their original order. */
  function Filter<T(==,!new)>(s: seq<T>, p: T -> bool): (r: seq<T>)
    ensures forall x :: x in r <==> x in s && p(x)
    ensures forall i :: 0 <= i < |r| ==> p(r[i])
    ensures IsSubsequence(r, s)
    ensures (forall i :: 0 <= i < |s| ==> p(s[i])) ==> r == s
    decreases |s|
  {
    if s == [] then []
    else
      var rest := Filter(s[1..], p);
      assert s == [s[0]] + s[1..];
      if p(s[0]) then
        var r := [s[0]] + rest;
        assert r[0] == s[0] && r[1..] == rest;
        r
      else
        rest
  }

  /** Filtering only removes elements. */
  lemma {:induction false} FilterShrinks<T(!new)>(s: seq<T>, p: T -> bool)
    ensures |Filter(s, p)| <= |s|
    ensures multiset(Filter(s, p)) <= multiset(s)
    decreases |s|
  {
    if s != [] {
      FilterShrinks(s[1..], p);
      assert s == [s[0]] + s[1..];
      assert multiset(s) == multiset{s[0]} + multiset(s[1..]);
    }
  }

  /** The number of rows SQL `LIMIT limit OFFSET offset` keeps out of `n`
      (a negative limit means no limit, a negative offset counts as zero). */
  function WindowSize(n: nat, limit: int, offset: int): nat {
    var start := if offset < 0 then 0 else if offset > n then n else offset;
    if limit < 0 || limit > n - start then n - start else limit
  }

  /** The first row SQL `OFFSET offset` keeps out of `n`. */
  function WindowStart(n: nat, offset: int): (start: nat)
    ensures start <= n
  {
    if offset < 0 then 0 else if offset > n then n else offset
  }

  /** SQL `LIMIT limit OFFSET offset` applied to an ordered result. */
  function Window<T>(s: seq<T>, limit: int, offset: int): (r: seq<T>)
    ensures |r| == WindowSize(|s|, limit, offset)
    ensures |r| <= |s|
    ensures 0 <= limit ==> |r| <= limit
    ensures r == s[WindowStart(|s|, offset)..WindowStart(|s|, offset) + |r|]
    ensures multiset(r) <= multiset(s)
  {
    var start := WindowStart(|s|, offset);
    var rest := s[start..];
    var r := if limit < 0 || limit > |rest| then rest else rest[..limit];
    assert s == s[..start] + r + s[start + |r|..];
    r
  }

  /** Two consecutive pages of size `k` make up the page of size `2k`. */
  lemma {:induction false} WindowPagesConcat<T>(s: seq<T>, k: nat, offset: nat)
    ensures Window(s, k, offset) + Window(s, k, offset + k) == Window(s, 2 * k, offset)
  {
    var n := |s|;
    var a := Window(s, k, offset);
    var b := Window(s, k, offset + k);
    var c := Window(s, 2 * k, offset);
    assert |a| + |b| == |c|;
    assert forall i :: 0 <= i < |c| ==> (a + b)[i] == c[i];
  }

  /** Sequences with the same multiset have the same members. */
  lemma MultisetMembers<T>(a: seq<T>, b: seq<T>)
    requires multiset(a) == multiset(b)
    ensures forall x :: x in a <==> x in b
  {
    assert forall x :: x in a <==> x in multiset(a);
    assert forall x :: x in b <==> x in multiset(b);
  }

  /** No two positions of `s` hold the same key (a `PRIMARY KEY` or `UNIQUE` column). */
  predicate DistinctKeys<T, K(==)>(s: seq<T>, key: T -> K) {
    forall i, j :: 0 <= i < j < |s| ==> key(s[i]) != key(s[j])
  }

  /** Deleting rows keeps a key column unique. */
  lemma {:induction false} FilterKeepsDistinct<T(!new), K>(s: seq<T>, p: T -> bool, key: T -> K)
    requires DistinctKeys(s, key)
    ensures DistinctKeys(Filter(s, p), key)
    decreases |s|
  {
    if s != [] {
      FilterKeepsDistinct(s[1..], p, key);
      var rest := Filter(s[1..], p);
      if p(s[0]) {
        var r := [s[0]] + rest;
        assert Filter(s, p) == r;
        forall j | 0 < j < |r| ensures key(r[0]) != key(r[j]) {
          assert r[j] in s[1..];
          var m :| 0 <= m < |s[1..]| && s[1..][m] == r[j];
          assert s[m + 1] == r[j];
        }
        assert forall i, j :: 0 < i < j < |r| ==> r[i] == rest[i - 1] && r[j] == rest[j - 1];
      }
    }
  }

  /** Filtering distributes over appending one element. */
  lemma {:induction false} FilterAppend<T(!new)>(s: seq<T>, x: T, p: T -> bool)
    ensures Filter(s + [x], p) == Filter(s, p) + (if p(x) then [x] else [])
    decreases |s|
  {
    var t := s + [x];
    var tail := if p(x) then [x] else [];
    if s == [] {
      assert t[1..] == [];
      assert Filter(t, p) == tail;
    } else {
      assert t[0] == s[0] && t[1..] == s[1..] + [x];
      FilterAppend(s[1..], x, p);
      if p(s[0]) {
        calc {
          Filter(t, p);
          [s[0]] + Filter(s[1..] + [x], p);
          [s[0]] + (Filter(s[1..], p) + tail);
          ([s[0]] + Filter(s[1..], p)) + tail;
          Filter(s, p) + tail;
        }
      } else {
        calc {
          Filter(t, p);
          Filter(s[1..] + [x], p);
          Filter(s[1..], p) + tail;
          Filter(s, p) + tail;
        }
      }
    }
  }

}
