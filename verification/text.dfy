/** String helpers shared by the stores and the UI: substring search, ASCII
    case folding, JavaScript `trim`, and the URL fragments the UI derives
    titles from. Strings are sequences of Unicode scalar values. */
module Text {
  import opened Wrappers

  /** `p` is a prefix of `s` (JavaScript `startsWith`). */
  predicate IsPrefix(p: string, s: string) {
    |p| <= |s| && s[..|p|] == p
  }

  /** `t` occurs in `s` as a contiguous substring (JavaScript `includes`). */
  predicate Contains(s: string, t: string)
    decreases |s|
  {
    IsPrefix(t, s) || (|s| > 0 && Contains(s[1..], t))
  }

  /** An occurrence of `t` in `s` at offset `i`, the independent
      characterisation of `Contains`. */
  ghost predicate OccursAt(s: string, t: string, i: int) {
    0 <= i && i + |t| <= |s| && s[i..i + |t|] == t
  }

  lemma {:induction false} ContainsIffOccurs(s: string, t: string)
    ensures Contains(s, t) <==> exists i :: OccursAt(s, t, i)
    decreases |s|
  {
    if IsPrefix(t, s) {
      assert OccursAt(s, t, 0);
    } else if |s| > 0 {
      ContainsIffOccurs(s[1..], t);
      if Contains(s[1..], t) {
        var i :| OccursAt(s[1..], t, i);
        assert s[1..][i..i + |t|] == s[i + 1..i + 1 + |t|];
        assert OccursAt(s, t, i + 1);
      }
      if i :| OccursAt(s, t, i) {
        assert i != 0;
        assert s[1..][i - 1..i - 1 + |t|] == s[i..i + |t|];
        assert OccursAt(s[1..], t, i - 1);
      }
    }
  }

  /** Every string contains the empty string, so an empty search term matches everything. */
  lemma EmptyAlwaysContained(s: string)
    ensures Contains(s, "")
  {
  }

  /** ASCII upper-case letters map to lower case, every other character is unchanged. */
  function LowerChar(c: char): (r: char)
    ensures !('A' <= r <= 'Z')
    ensures c == r || ('A' <= c <= 'Z' && r as int == c as int + 32)
  {
    if 'A' <= c <= 'Z' then (c as int + 32) as char else c
  }

  /** ASCII lower-casing of a whole string. */
  function Lower(s: string): (r: string)
    ensures |r| == |s|
    ensures forall i :: 0 <= i < |s| ==> r[i] == LowerChar(s[i])
    ensures forall i :: 0 <= i < |r| ==> !('A' <= r[i] <= 'Z')
  {
    seq(|s|, i requires 0 <= i < |s| => LowerChar(s[i]))
  }

  lemma LowerIdempotent(s: string)
    ensures Lower(Lower(s)) == Lower(s)
  {
  }

  /** Case-insensitive substring test over ASCII letters: SQL `LIKE '%t%'`
      (without wildcards) and JavaScript `toLowerCase().includes(...)`. */
  predicate ContainsFolded(s: string, t: string) {
    Contains(Lower(s), Lower(t))
  }

  /** JavaScript `x || null` on an optional string: the empty string is falsy. */
  function NullIfEmpty(o: Option<string>): (r: Option<string>)
    ensures r.Some? <==> (o.Some? && o.value != "")
    ensures r.Some? ==> r == o
  {
    if o.Some? && o.value != "" then o else None
  }

  /** The characters JavaScript `String.prototype.trim` removes: WhiteSpace
      and LineTerminator of section 12.2 and 12.3 of ECMA-262. */
  predicate IsJsSpace(c: char) {
    c == '\t' || c == '\n' || c == '\U{000B}' || c == '\U{000C}' || c == '\r' || c == ' '
    || c == '\U{00A0}' || c == '\U{1680}' || ('\U{2000}' <= c <= '\U{200A}')
    || c == '\U{2028}' || c == '\U{2029}' || c == '\U{202F}' || c == '\U{205F}'
    || c == '\U{3000}' || c == '\U{FEFF}'
  }

  /** Index of the first non-space character of `s` (|s| when there is none). */
  function SkipSpace(s: string, i: nat): (j: nat)
    requires i <= |s|
    ensures i <= j <= |s|
    ensures forall k :: i <= k < j ==> IsJsSpace(s[k])
    ensures j < |s| ==> !IsJsSpace(s[j])
    decreases |s| - i
  {
    if i == |s| || !IsJsSpace(s[i]) then i else SkipSpace(s, i + 1)
  }

  /** One past the last non-space character of `s[lo..hi]` (lo when there is none). */
  function SkipSpaceBack(s: string, lo: nat, hi: nat): (j: nat)
    requires lo <= hi <= |s|
    ensures lo <= j <= hi
    ensures forall k :: j <= k < hi ==> IsJsSpace(s[k])
    ensures j > lo ==> !IsJsSpace(s[j - 1])
    decreases hi - lo
  {
    if hi == lo || !IsJsSpace(s[hi - 1]) then hi else SkipSpaceBack(s, lo, hi - 1)
  }

  /** JavaScript `trim`: the result is the slice of `s` left after removing
      leading and trailing white space, and it neither starts nor ends with
      white space. */
  function Trim(s: string): (r: string)
    ensures exists i, j ::
              && 0 <= i <= j <= |s| && r == s[i..j]
              && (forall k :: 0 <= k < i ==> IsJsSpace(s[k]))
              && (forall k :: j <= k < |s| ==> IsJsSpace(s[k]))
    ensures |r| > 0 ==> !IsJsSpace(r[0]) && !IsJsSpace(r[|r| - 1])
    ensures r == "" <==> forall k :: 0 <= k < |s| ==> IsJsSpace(s[k])
  {
    var i := SkipSpace(s, 0);
    var j := SkipSpaceBack(s, i, |s|);
    s[i..j]
  }

  /** The `/^https?:\/\//` prefix removal the UI applies before taking a host name. */
  function StripHttpScheme(u: string): (r: string)
    ensures IsPrefix("http://", u) ==> r == u[7..]
    ensures IsPrefix("https://", u) ==> r == u[8..]
    ensures !IsPrefix("http://", u) && !IsPrefix("https://", u) ==> r == u
  {
    if IsPrefix("http://", u) then
      assert u[4] == ':';
      u[7..]
    else if IsPrefix("https://", u) then u[8..]
    else u
  }

  /** `s.split('/')[0]`: the longest prefix of `s` that holds no slash. */
  function BeforeSlash(s: string): (r: string)
    ensures IsPrefix(r, s)
    ensures forall k :: 0 <= k < |r| ==> r[k] != '/'
    ensures |r| < |s| ==> s[|r|] == '/'
  {
    if s == [] || s[0] == '/' then [] else [s[0]] + BeforeSlash(s[1..])
  }

  /** There is one prefix of `s` that holds no slash and runs up to a
      slash or to the end. */
  lemma CutAtSlashUnique(s: string, a: string, b: string)
    requires IsPrefix(a, s) && (forall k :: 0 <= k < |a| ==> a[k] != '/') && (|a| == |s| || s[|a|] == '/')
    requires IsPrefix(b, s) && (forall k :: 0 <= k < |b| ==> b[k] != '/') && (|b| == |s| || s[|b|] == '/')
    ensures a == b
  {
  }

  /** The host-like part of a URL: scheme stripped, cut at the first slash. */
  function HostPart(u: string): string {
    BeforeSlash(StripHttpScheme(u))
  }
}
